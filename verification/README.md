# Timers, queues and parsers of a small network-server repository

A verification model, in Dafny 4.11, of the stateful core of a repository of network-programming
exercises: three interchangeable timer containers and the event loop that closes idle connections
with one of them (`timer/`), a thread pool's bounded request queue and an HTTP connection's
incremental parser (`thread_pool/`), and a parent process that hands connections to dying children
in turn (`process_pool/`).

What the model says, in the order of difficulty:

- **Min-heap.** A class over an array of timers with back-pointers. Every operation keeps heap
  order and `array[i].index == i`, and is proved against a map from timers to deadlines. A tick
  calls exactly the due, undeleted timers in deadline order. Bulk building makes fewer moves than
  there are timers. Postponing in place is correct at any position.
- **Time wheel.** A class with sixty doubly linked slot lists. The pair of a rotation count and a
  slot refines a plain countdown, and every timer that is left alone fires exactly once, on the
  tick that was asked for. The object records its calls and callbacks, so this is a theorem about
  the callbacks it has run.
- **Sorted list.** A class of linked nodes, proved against stable insertion into a sorted sequence.
  `adjust_timer` on its own is a re-insertion exactly when the predecessor is not later.
- **Heap against list.** Driven by the same calls the two containers call the same timers at every
  tick, although one deletes lazily and the other at once. This is proved over whole runs of the
  two specifications, and call by call on the two objects.
- **Event loop.** A state machine whose invariant says that every open connection owns one live
  timer and every other connection was closed exactly once, and a class on the real heap whose
  methods take exactly the machine's steps. The claim that the pending alarm never oversleeps is
  *false* of the code as it stands: the handler reads the clock twice, and if a deadline falls
  between the readings `alarm` is called with zero, which cancels it, or with a negative number,
  which wraps around. Over every run the server is awake in every state if and only if every
  handler's second reading comes before every deadline it leaves; a concrete run with punctual
  alarms falls asleep for good.
- **Thread pool.** Any number of callers and workers interleaving over a mutex and a counting
  semaphore: the token count, the unreachable branch, first in first out, exactly one worker for
  each request, no lost wake-up, and the exact bound, which is one more than `max_requests`. From
  every reachable state that is not stopped, work without new calls ends with every accepted
  request served. A class with the pool's own fields takes exactly the machine's steps.
- **Lines and request lines.** The in-place scanner computes what the first LF decides, so how the
  bytes were cut into chunks does not matter; `parse_request_line` accepts exactly a grammar and
  leaves `m_url` at exactly the path. Joined on one buffer, they lead from received bytes to the
  path under every chunking.
- **Process pool.** The search for a live child, and fairness over runs in which children die.

The files follow the source. `MinHeapTimer`, `TimeWheelTimer`, `SortedListTimer`, `InactiveServer`,
`TaskPool`, `HttpConn` and `ProcessPool` hold the classes, with the source's fields and loops;
`TimerPair` drives a heap and a list object side by side. `TimerSpec`, `HeapMath`, `WheelSpec`,
`SortedListSpec`, `TimerEquivalence`, `ServerSpec`, `ThreadPool`, `LineScanner`, `RequestLine` and
`RoundRobin` hold the functions and machines they are proved against and the lemmas about those;
`Lists`, `Sums` and `Wrappers` are helpers. `dafny verify dfyconfig.toml` checks everything.

Contracts of the main operations are stated on the fields and in numbers and characters (15 seconds, 2048
bytes, spaces and tabs), next to their statement through the specification functions.

Where the code and its own names or comments disagree, the model follows the code:

- `thread_pool.h` compares with `>`, so the queue holds up to `max_requests` + 1 requests.
- `http_conn::read` refuses a request that fills the buffer exactly, because `recv` is then asked
  for zero bytes and its answer is taken for a closed peer.
- `percolate_down` is marked as private in a comment but is called by the driver; its contract is
  therefore stated for every position.
- `time_wheel::add_timer` treats a timeout of 0 as one tick and fires a timer of t ticks on the
  (t+1)-th later call of `tick`.

## Model

| member | source | states |
|---|---|---|
| `TimerSpec.TickPops` | `timer/min_heap_timer.h:138-148` | popping the earliest due timer, and calling it when its callback is set, keeps the progress of a tick: calls are distinct, in deadline order, and no later than anything still scheduled |
| `TimerSpec.TickInPlain` | `timer/min_heap_timer.h:133-149` | a tick's result timer by timer: who stays, who is called, no repetition, order of deadlines |
| `TimerSpec.TickEnds` | `timer/min_heap_timer.h:138-148` | once nothing due is left, exactly the due timers are gone and the calls made are exactly those of the due timers with a callback, once each, in non-decreasing deadline order |
| `HeapMath.StepDown` | `timer/min_heap_timer.h:160-167` | moving the hole to its earlier child keeps heap order everywhere but below the hole; this uses the order between the hole's parent and its children |
| `HeapMath.StopDown` | `timer/min_heap_timer.h:168-172` | where neither child is earlier, heap order is whole again |
| `HeapMath.StepUp` | `timer/min_heap_timer.h:93-100` | moving the hole up past a later parent keeps heap order everywhere but above the hole |
| `HeapMath.StopUp` | `timer/min_heap_timer.h:96-97` | where the parent is not later, heap order is whole again |
| `HeapMath.RootReplaced` | `timer/min_heap_timer.h:127-129` | putting the last deadline at the root of a heap leaves only the root possibly out of order |
| `HeapMath.Raised` | `timer/inactive_timer.cc:214-216` | raising one deadline of a heap leaves only that position possibly out of order, and its parent still precedes its children |
| `HeapMath.RootLeast` | `timer/min_heap_timer.h:113-118` | in a heap the root's deadline is at most every other |
| `HeapMath.HeightDrops` | `timer/min_heap_timer.h:158-168` | every step of the sift-down loop uses up at least one level of the tree |
| `HeapMath.HeightHalves` | `timer/min_heap_timer.h:70-73` | the left child of position i in a heap of n has the height of position i in a heap of n/2 |
| `HeapMath.HeightSumHalves` | `timer/min_heap_timer.h:70-73` | the heights of the inner positions add up to their number plus the heights in a heap of half the size |
| `HeapMath.HeightSumBound` | `timer/min_heap_timer.h:70-73` | the heights of a non-empty heap add up to less than its size: bulk building is linear |
| `MinHeapTimer.HeapTimer.constructor` | `timer/min_heap_timer.h:26-29` | the deadline is the clock reading plus the delay |
| `MinHeapTimer.TimeHeap.constructor` | `timer/min_heap_timer.h:40-49` | an empty heap of the given capacity that has run no callback |
| `MinHeapTimer.TimeHeap.FromArray` | `timer/min_heap_timer.h:50-75` | refused exactly when the size exceeds the capacity; otherwise a valid heap of exactly the given timers (same deadlines, same callbacks, right back-pointers), built with fewer than `size` moves of a timer from one position to another in total |
| `MinHeapTimer.TimeHeap.Fill` | `timer/min_heap_timer.h:65-69` | the given timers are copied in order and every back-pointer is set |
| `MinHeapTimer.TimeHeap.Heapify` | `timer/min_heap_timer.h:70-73` | the bottom-up pass turns any array of timers into a heap of the same timers in fewer moves than timers |
| `MinHeapTimer.TimeHeap.AddTimer` | `timer/min_heap_timer.h:85-103` | the schedule gains exactly the new timer; null changes nothing; a full array is doubled first; heap order and back-pointers are kept |
| `MinHeapTimer.TimeHeap.SiftUp` | `timer/min_heap_timer.h:92-102` | the new timer moves up from the last position until the array is a heap with right back-pointers again |
| `MinHeapTimer.TimeHeap.DelTimer` | `timer/min_heap_timer.h:105-111` | only the timer's callback is cleared: it stays scheduled with its deadline, and every other timer is untouched |
| `MinHeapTimer.TimeHeap.Top` | `timer/min_heap_timer.h:113-118` | null exactly when nothing is scheduled, otherwise a timer no later than any other, deleted ones included |
| `MinHeapTimer.TimeHeap.RootIsMin` | `timer/min_heap_timer.h:113-118` | the root of a valid heap is scheduled and no later than any other timer |
| `MinHeapTimer.TimeHeap.PopTimer` | `timer/min_heap_timer.h:120-131` | exactly the root leaves the schedule; an empty heap is left alone; order and back-pointers hold even when the heap empties |
| `MinHeapTimer.TimeHeap.LastReplacesRoot` | `timer/min_heap_timer.h:127-128` | the last timer itself takes the root's place, every other timer stays where it is, and the array holds exactly the timers but the root with right back-pointers |
| `MinHeapTimer.TimeHeap.Tick` | `timer/min_heap_timer.h:133-149` | exactly the timers due at `cur` leave, exactly those among them that still have a callback are called, once each, in non-decreasing deadline order, and what is left is a valid heap of later timers |
| `MinHeapTimer.TimeHeap.RunRoot` | `timer/min_heap_timer.h:144-145` | the root's callback runs unless it was deleted, and the root is a least timer |
| `MinHeapTimer.TimeHeap.PercolateDown` | `timer/min_heap_timer.h:154-173` | from an array ordered but for the hole, heap order and back-pointers are restored with at most as many moves as the hole's height |
| `MinHeapTimer.TimeHeap.SiftDown` | `timer/min_heap_timer.h:157-172` | the loop itself, with the moving timer held in a variable: same result |
| `MinHeapTimer.TimeHeap.EarlierChild` | `timer/min_heap_timer.h:160-162` | the child chosen is no later than either child and lies inside the heap |
| `MinHeapTimer.TimeHeap.Shift` | `timer/min_heap_timer.h:165-166` | one move: the hole and the other position swap places and the moved timer's back-pointer follows |
| `MinHeapTimer.TimeHeap.Resize` | `timer/min_heap_timer.h:175-192` | the capacity doubles, which leaves room unless it was 0; every position holds the timer it held, with its back-pointer |
| `MinHeapTimer.TimeHeap.CopyInto` | `timer/min_heap_timer.h:185-189` | the loop copies every stored timer to the same position of the new array and leaves the heap intact |
| `MinHeapTimer.TimeHeap.HeapifyAt` | `timer/min_heap_timer.h:70-73` | one inner position joins the part in order, with at most as many moves as its height |
| `MinHeapTimer.TimeHeap.Postpone` | `timer/inactive_timer.cc:214-216` | raising the deadline of any scheduled timer in place and sifting down from its stored index yields a valid heap in which only that deadline changed |
| `WheelSpec.AddedFiresOnce` | `timer/time_wheel_timer.h:62-154` | a timer added for t ticks and then left alone fires exactly once, on the tick after t others, whatever else is added or deleted; with fewer ticks it has not fired |
| `WheelSpec.PendingFiresOnce` | `timer/time_wheel_timer.h:115-154` | the same for any pending timer with t ticks left |
| `WheelSpec.AbsentNeverFires` | `timer/time_wheel_timer.h:115-154` | a timer that is not in the wheel never fires |
| `WheelSpec.DeletedNeverFires` | `timer/time_wheel_timer.h:91-114` | a timer deleted before its tick never fires, in any run around the deletion |
| `WheelSpec.FiresWhenDue` | `timer/time_wheel_timer.h:115-154` | the ticks at which a timer fires are exactly those at which it falls due |
| `WheelSpec.AddedFallsDueOnce` | `timer/time_wheel_timer.h:62-154` | from the call that adds it on, a timer left alone falls due at exactly one tick of the run, whatever came before |
| `WheelSpec.DeletedNeverFallsDue` | `timer/time_wheel_timer.h:91-114` | a timer deleted before its tick falls due at no tick after it was added |
| `WheelSpec.FiringTicksConcat` | `timer/time_wheel_timer.h:115-154` | the firings of a run are those of its first part followed by those of the rest from the state reached |
| `TimeWheelTimer.TwTimer.constructor` | `timer/time_wheel_timer.h:24-28` | an unlinked timer with the given rotation count and slot |
| `TimeWheelTimer.Placement` | `timer/time_wheel_timer.h:74-76` | the rotation count and slot chosen stand for exactly the requested number of ticks, for every number and every current slot |
| `TimeWheelTimer.TickArithmetic` | `timer/time_wheel_timer.h:122-152` | a timer is due exactly when it is in the current slot with no rotation left; a tick lowers every other countdown by exactly one, whether it loses a rotation or its slot comes nearer |
| `TimeWheelTimer.FiledAdd` | `timer/time_wheel_timer.h:78-88` | filing a new timer at the head of its slot keeps every timer filed once, under its own slot, newest first |
| `TimeWheelTimer.FiledRemove` | `timer/time_wheel_timer.h:97-113` | taking a timer out keeps every other timer filed once under its own slot |
| `TimeWheelTimer.WalkStep` | `timer/time_wheel_timer.h:119-150` | one iteration over a slot: a timer with rotations left loses one and stays, any other fires and goes; no timer is met twice |
| `TimeWheelTimer.WalkEnds` | `timer/time_wheel_timer.h:115-154` | after a whole walk and the move to the next slot, the countdowns are the old ones less one, and exactly those at zero fired, newest first |
| `TimeWheelTimer.TimeWheel.constructor` | `timer/time_wheel_timer.h:41-48` | an empty, well-formed wheel with no calls made and no callback run |
| `TimeWheelTimer.TimeWheel.FiresOnce` | `timer/time_wheel_timer.h:62-154` | on the wheel object, over any sequence of calls made to it: a timer that was added and then left alone is in the record of exactly one later tick's callbacks, the one asked for |
| `TimeWheelTimer.TimeWheel.FiresAfterTimeout` | `timer/time_wheel_timer.h:62-154` | in numbers: a timer that `AddTimer(timeout)` returned, left alone, is called by the tick that follows n other ticks and by no other, with n the timeout, or 1 for a timeout of 0 |
| `TimeWheelTimer.TimeWheel.NeverFires` | `timer/time_wheel_timer.h:91-114` | on the wheel object: a timer deleted before its tick is in no later record |
| `TimeWheelTimer.TickPinned` | `timer/time_wheel_timer.h:115-154` | what a tick does to every single timer: called if and only if its countdown is 0, otherwise one less; newest first |
| `TimeWheelTimer.ToldOn` | `timer/time_wheel_timer.h:115-154` | one more call keeps the record of callbacks equal to what fell due |
| `TimeWheelTimer.TimeWheel.AddTimer` | `timer/time_wheel_timer.h:62-90` | null exactly for a negative timeout; otherwise a new timer counts down from exactly the timeout, or from 1 for a timeout of 0, every other countdown is unchanged, and all slot lists stay well formed |
| `TimeWheelTimer.TimeWheel.PushHead` | `timer/time_wheel_timer.h:78-88` | the timer becomes the head of its slot's doubly linked list; no other slot's head changes |
| `TimeWheelTimer.TimeWheel.Link` | `timer/time_wheel_timer.h:77-88` | all sixty lists stay disjoint, acyclic and doubly linked, with the new timer in its own slot |
| `TimeWheelTimer.TimeWheel.Splice` | `timer/time_wheel_timer.h:97-113` | the slot's list without the timer, still doubly linked; the timer that followed it is returned; no other slot's head changes |
| `TimeWheelTimer.TimeWheel.Unlink` | `timer/time_wheel_timer.h:130-149` | exactly that timer leaves its slot's list, every list stays well formed, and the walk goes on at its successor |
| `TimeWheelTimer.TimeWheel.DelTimer` | `timer/time_wheel_timer.h:91-114` | exactly that timer's countdown disappears; null changes nothing; the wheel stays well formed |
| `TimeWheelTimer.TimeWheel.PassBy` | `timer/time_wheel_timer.h:122-126` | a timer with rotations left loses one, stays linked, and the walk goes on at its successor |
| `TimeWheelTimer.TimeWheel.Fire` | `timer/time_wheel_timer.h:127-150` | the callback runs, the timer is unlinked under the walk's feet, and the walk goes on at its old successor |
| `TimeWheelTimer.TimeWheel.WalkSlot` | `timer/time_wheel_timer.h:117-151` | the loop visits every timer of the slot's original list exactly once |
| `TimeWheelTimer.TimeWheel.Tick` | `timer/time_wheel_timer.h:115-154` | exactly the timers at zero fire and are removed, newest first, every other countdown drops by one, and the wheel stays well formed |
| `SortedListSpec.UpToIs` | `timer/list_timer.h:136-160` | in a sorted list the insertion point is settled by one neighbour on each side |
| `SortedListSpec.InsertSorted` | `timer/list_timer.h:45-62` | inserting behind every item that is not later keeps the list sorted |
| `SortedListSpec.SortedAround` | `timer/list_timer.h:67-71` | one item not earlier than its predecessor and not later than its successor completes a sorted list |
| `SortedListSpec.AdjustedIsReinsertion` | `timer/list_timer.h:63-85` | adjusting the one item out of place leaves a sorted list if and only if the item before it is not later, since only the next item is looked at; it then equals removal followed by stable insertion |
| `SortedListSpec.UpToSplits` | `timer/list_timer.h:136-160` | in a sorted list everything before the insertion point is not later and everything behind it is later |
| `SortedListSpec.KeptInPlace` | `timer/list_timer.h:67-71` | an item before its successor is in place if and only if its predecessor is not later |
| `SortedListSpec.RaisedAdjusts` | `timer/list_timer.h:63-85` | raising one deadline of a sorted list and adjusting that item always gives a sorted list, equal to removal followed by stable insertion |
| `SortedListTimer.SortTimerLst.constructor` | `timer/list_timer.h:34` | an empty, well-formed list |
| `SortedListTimer.SortTimerLst.AddTimer` | `timer/list_timer.h:45-62` | the nodes gain the timer at one position: all before it are not later, all behind it are later (first in, first out among equals); null changes nothing; it stays one sorted doubly linked list |
| `SortedListTimer.SortTimerLst.Enter` | `timer/list_timer.h:49-61` | the cases of an empty list, an earlier head and a search, each ending in the stable insertion |
| `SortedListTimer.SortTimerLst.AddAfter` | `timer/list_timer.h:136-160` | the search from a node that is not later files the timer at its stable position, keeping links, order and `tail` |
| `SortedListTimer.SortTimerLst.LinkFirst` | `timer/list_timer.h:56-58` | the timer becomes the head of the doubly linked list |
| `SortedListTimer.SortTimerLst.LinkBetween` | `timer/list_timer.h:144-147` | the timer stands between the two neighbours in one doubly linked list |
| `SortedListTimer.SortTimerLst.LinkLast` | `timer/list_timer.h:155-158` | the timer becomes the last node and `tail` |
| `SortedListTimer.SortTimerLst.AdjustTimer` | `timer/list_timer.h:63-85` | the links always stay those of one list, whose items are those the specification of adjusting gives; null changes nothing |
| `SortedListTimer.SortTimerLst.MoveFirst` | `timer/list_timer.h:74-77` | the head, now later than its successor, is moved to its stable position |
| `SortedListTimer.SortTimerLst.MoveInner` | `timer/list_timer.h:81-83` | an inner node later than its successor is moved to its stable position |
| `SortedListTimer.SortTimerLst.Postpone` | `timer/list_timer.h:63-85` | raising a deadline and adjusting takes the node out and puts it in again where all before are not later and all behind are later |
| `SortedListTimer.SortTimerLst.DelTimer` | `timer/list_timer.h:86-113` | exactly that node is removed, wherever it stands; null changes nothing; the rest stays one sorted doubly linked list |
| `SortedListTimer.SortTimerLst.UnlinkAny` | `timer/list_timer.h:90-112` | in all four cases (only node, head, tail, inner) the links, head and tail are those of the list without the node |
| `SortedListTimer.SortTimerLst.PopFirst` | `timer/list_timer.h:128-130` | the head leaves; the new head, if any, has no predecessor |
| `SortedListTimer.SortTimerLst.Tick` | `timer/list_timer.h:114-134` | exactly the due timers, which are the leading ones, are called in list order and removed; the rest is untouched |
| `TimerEquivalence.RunsAlike` | `timer/min_heap_timer.h:85-149` | over every legal sequence of add, postpone, delete and tick from empty containers, each call makes heap and list call the same timers, deadline by deadline, and the list always holds exactly the heap's timers with a callback |
| `TimerEquivalence.StepSame` | `timer/min_heap_timer.h:85-149` | every single call keeps the two containers related and their calls alike |
| `TimerEquivalence.TickSame` | `timer/min_heap_timer.h:133-149` | a tick of related containers calls the same timers, in the same sequence of deadlines, and keeps them related |
| `TimerEquivalence.ListFires` | `timer/list_timer.h:114-134` | what the list calls at a tick, in its order, is a legal choice for the heap |
| `TimerEquivalence.ListKeeps` | `timer/list_timer.h:114-134` | what the list keeps at a tick is what the heap keeps with a callback |
| `TimerEquivalence.InsertSame` | `timer/list_timer.h:45-62` | stable insertion in the list matches adding to, or re-dating in, the heap |
| `TimerEquivalence.RemoveSame` | `timer/list_timer.h:86-113` | unlinking at once in the list matches clearing the callback in the heap |
| `TimerEquivalence.SameOrder` | `timer/min_heap_timer.h:133-149` | two orderings of the same timers by deadline show the same deadlines one by one |
| `TimerEquivalence.ListFollows` | `timer/list_timer.h:45-160` | whatever legal call comes next, the list has a step for it |
| `TimerPair.EmptyPaired` | `timer/list_timer.h:34` | a new heap and a new list are related |
| `TimerPair.Add` | `timer/list_timer.h:45-62` | adding the same timer to the heap object and the list object keeps them related |
| `TimerPair.AddPaired` | `timer/list_timer.h:45-62` | stable insertion under one name matches adding to the heap under the other |
| `TimerPair.Postpone` | `timer/inactive_timer.cc:206-217` | postponing it in both keeps them related and is the heap step and list step of the comparison |
| `TimerPair.Delete` | `timer/min_heap_timer.h:105-111` | deleting it in both, lazily and at once, keeps them related |
| `TimerPair.Tick` | `timer/min_heap_timer.h:133-149` | a tick of both objects calls the same timers (each the other's twin), with equal deadlines one by one, and keeps them related |
| `TimerPair.NamedTick` | `timer/list_timer.h:114-134` | what the list object calls and keeps is the list step of the comparison, under the heap's names |
| `ServerSpec.RunKeepsInv` | `timer/inactive_timer.cc:108-229` | over every run: each open connection owns exactly one live timer, due 15 after its last accept or data, no live timer belongs to a closed connection, and every closed connection was closed exactly once, if by a tick then at a time no earlier than that deadline |
| `ServerSpec.ReachableInPlain` | `timer/inactive_timer.cc:108-229` | the same spelled out: for every open descriptor, every live timer and every close action of every reachable state, with the number 15 |
| `ServerSpec.DeadlineFromTrace` | `timer/inactive_timer.cc:141-145` | over every run an open connection's timer is due exactly 15 after the last event that accepted the connection or brought it data |
| `ServerSpec.OnlyTwoWaysToClose` | `timer/inactive_timer.cc:183-203` | a connection stops being open if and only if its peer closes or a handler calls its timer, and starts to be only by an accept |
| `ServerSpec.ClosingsMove` | `timer/inactive_timer.cc:67-73` | a peer close runs one close action, a handler one for each timer it calls, and no other event runs any |
| `ServerSpec.TimersMove` | `timer/inactive_timer.cc:119-218` | what each event does to the timers, in numbers: accept and data date one timer 15 on, a close drops one callback, a handler keeps exactly the later ones, EAGAIN changes nothing at all |
| `ServerSpec.InvKept` | `timer/inactive_timer.cc:116-228` | every step of the loop keeps that invariant |
| `ServerSpec.AcceptKeeps` | `timer/inactive_timer.cc:119-146` | accepting a connection keeps it, also on a reused descriptor whose old timer is still in the heap |
| `ServerSpec.DataKeeps` | `timer/inactive_timer.cc:204-218` | client data keeps it, and no other timer in the heap changes |
| `ServerSpec.CloseKeeps` | `timer/inactive_timer.cc:183-203` | closing on peer close or error keeps it: that connection is closed now and never again |
| `ServerSpec.HandleKeeps` | `timer/inactive_timer.cc:56-65` | a timer handler keeps it: each connection it closes was open and is not closed again |
| `ServerSpec.HandleOwned` | `timer/inactive_timer.cc:56-65` | a handler calls exactly the open connections whose time is up, and all others stay open |
| `ServerSpec.HandlerClosesIdle` | `timer/inactive_timer.cc:56-65` | a connection survives a handler exactly when its deadline is after the handler's first clock reading |
| `ServerSpec.HandlerAlarm` | `timer/inactive_timer.cc:60-64` | the alarm set is early enough for every timer left if and only if every such deadline is after the handler's second clock reading |
| `ServerSpec.StillClockAlarm` | `timer/inactive_timer.cc:60-64` | with a clock that does not move inside the handler the alarm is always early enough |
| `ServerSpec.AlarmInvKept` | `timer/inactive_timer.cc:107-229` | steps whose handler reads the clock in time keep: the handler is about to run, or the alarm rings no later than every timer in the heap |
| `ServerSpec.AwakeExactlyInTime` | `timer/inactive_timer.cc:107-229` | over every run: in every state the handler is about to run or the alarm rings no later than every timer in the heap, if and only if the second clock reading of every handler comes before every deadline it leaves |
| `ServerSpec.AwakeInPlain` | `timer/inactive_timer.cc:107-229` | the same equivalence with every notion spelled out |
| `ServerSpec.RunStaysAwake` | `timer/inactive_timer.cc:107-229` | one half: over every run whose handlers read the clock in time, the server never oversleeps a deadline |
| `ServerSpec.LateHandlerSleeps` | `timer/inactive_timer.cc:56-65` | the other half: a handler whose second reading is too late leaves a state in which nothing wakes the server in time |
| `ServerSpec.RunHasOneAlarm` | `timer/inactive_timer.cc:38-65` | over every run an alarm is set, in the pipe or noted by the flag, never two of these at a time |
| `ServerSpec.RearmedFor` | `timer/inactive_timer.cc:61-64` | the alarm is set for the earliest deadline when that is to come, cancelled when it is now, and 2^32 later when it has passed |
| `ServerSpec.RearmedIdle` | `timer/inactive_timer.cc:61-64` | with no timer left the alarm is set for one second on |
| `ServerSpec.RearmedCovers` | `timer/inactive_timer.cc:61-64` | re-arming covers every timer left if and only if all their deadlines are still to come: zero cancels the alarm, a negative number wraps around |
| `ServerSpec.HandlerMaySleepForever` | `timer/inactive_timer.cc:60-64` | a concrete run with two connections and every alarm served at once, in which the clock reaches the second deadline between the two readings: alarm(0) cancels the alarm while a connection is open |
| `ServerSpec.AsleepForGood` | `timer/inactive_timer.cc:224-228` | once no alarm is pending or delivered, no later step of any run is a timer handler |
| `InactiveServer.Loop.constructor` | `timer/inactive_timer.cc:19-107` | the initial state: empty heap of capacity 20, nothing in the table, first alarm one second after the start |
| `InactiveServer.Loop.Accept` | `timer/inactive_timer.cc:119-146` | the code on the real heap takes exactly the Accept step: the table and the heap gain the new timer, due 15 after the reading |
| `InactiveServer.Loop.MakeTimer` | `timer/inactive_timer.cc:141-143` | a new timer due 15 after the reading, for that connection, with its callback set |
| `InactiveServer.Loop.File` | `timer/inactive_timer.cc:144-145` | putting the timer into the table and the heap takes exactly the Accept step |
| `InactiveServer.Loop.Readable` | `timer/inactive_timer.cc:176-219` | bytes: exactly the Data step, only that timer moves, to 15 after the reading; an end or an error: exactly the Close step, one close action and one callback dropped; EAGAIN: nothing changes at all |
| `InactiveServer.Loop.Drop` | `timer/inactive_timer.cc:187-192` | close action then lazy deletion: exactly the Close step |
| `InactiveServer.Loop.Touch` | `timer/inactive_timer.cc:206-217` | raised deadline then sift-down: exactly the Data step |
| `InactiveServer.Loop.Signals` | `timer/inactive_timer.cc:147-175` | the flags become true exactly for the signals read: the ReadSignals step if an alarm is among them |
| `InactiveServer.Loop.AlarmRings` | `timer/inactive_timer.cc:38-44` | a delivered alarm is no longer pending and waits in the pipe |
| `InactiveServer.Loop.RunTick` | `timer/inactive_timer.cc:60` | the heap's tick closes exactly the descriptors of the timers it calls, in order |
| `InactiveServer.Loop.TimeLeft` | `timer/inactive_timer.cc:61-63` | one second when nothing is left, otherwise the time until an earliest deadline |
| `InactiveServer.Loop.SetAlarm` | `timer/inactive_timer.cc:61-64` | one second on when no timer is left; otherwise for the deadline of an earliest timer, none when that is now, and 2^32 seconds later when it has passed |
| `InactiveServer.Loop.TimerHandler` | `timer/inactive_timer.cc:224-228` | tick and re-arming on the real heap take exactly the Handle step: who stays, who is called, which descriptors are closed in which order, and the alarm, all in numbers |
| `ThreadPool.InitInv` | `thread_pool/thread_pool.h:35-64` | construction is refused exactly for a non-positive argument, and otherwise starts in the invariant with that many idle workers, an empty queue, no token and a free mutex |
| `ThreadPool.RunKeepsInv` | `thread_pool/thread_pool.h:74-115` | in every interleaving of any number of callers and workers: mutual exclusion, the token count, first in first out, the bound `max_requests` + 1, one worker for each request, and no worker inside with an empty queue |
| `ThreadPool.ReachableInPlain` | `thread_pool/thread_pool.h:74-115` | the same spelled out thread by thread, with the threads between wait and pop and between push and post counted as sets |
| `ThreadPool.DoneMoves` | `thread_pool/thread_pool.h:113` | a request counts as done exactly when a worker that holds it under its ticket finishes process(), and once only; what was accepted or popped stays so |
| `ThreadPool.InvKept` | `thread_pool/thread_pool.h:74-115` | every atomic step keeps that invariant |
| `ThreadPool.ExclusiveKept` | `thread_pool/thread_pool.h:76-83` | every step keeps: a thread is in its locked section exactly when it is the owner of the mutex |
| `ThreadPool.TokensKept` | `thread_pool/thread_pool.h:82-110` | every step keeps: queue length = semaphore count + workers past wait that have not popped + callers past the push that have not posted |
| `ThreadPool.WokenFindsWork` | `thread_pool/thread_pool.h:101-107` | a worker past its wait finds the queue non-empty: the branch for an empty queue is never taken |
| `ThreadPool.FifoKept` | `thread_pool/thread_pool.h:77-109` | every step keeps: the accepted requests are the popped ones followed by the queue, whose length is at most `max_requests` + 1 |
| `ThreadPool.BoundIsReached` | `thread_pool/thread_pool.h:77-82` | the bound is exact: for every valid pool and every length up to `max_requests` + 1 there is a run that reaches it |
| `ThreadPool.TicketsKept` | `thread_pool/thread_pool.h:108-113` | every step keeps: each popped non-null request is with exactly one worker until it is processed, and is processed once |
| `ThreadPool.TicketsPop` | `thread_pool/thread_pool.h:108-109` | popping gives the request to that worker alone |
| `ThreadPool.TicketsUnlock` | `thread_pool/thread_pool.h:110-113` | a null request is dropped after the unlock, any other goes on to be processed by the same worker |
| `ThreadPool.TicketsFinish` | `thread_pool/thread_pool.h:113` | a finished request is with no worker any more |
| `ThreadPool.StepWorks` | `thread_pool/thread_pool.h:74-115` | every step but a new call lowers a measure over tokens, queue and program counters |
| `ThreadPool.RunEnds` | `thread_pool/thread_pool.h:74-115` | without new calls every run is finite, with that measure as its bound |
| `ThreadPool.QuietIsDone` | `thread_pool/thread_pool.h:74-115` | no lost wake-up: when nothing can move, the queue is empty, every accepted non-null request was processed, every caller has returned and every worker waits |
| `ThreadPool.HolderMoves` | `thread_pool/thread_pool.h:76-110` | whoever holds the mutex has an enabled step |
| `ThreadPool.QueueIsServed` | `thread_pool/thread_pool.h:99-114` | with a worker, no stop and a non-empty queue, some step other than a new call is enabled |
| `ThreadPool.EveryRequestServed` | `thread_pool/thread_pool.h:74-115` | from every reachable state that is not stopped: some run without new calls finishes, and every run without new calls that cannot go on has served everything accepted before or during it, within the bound of the measure |
| `ThreadPool.SomeRunFinishes` | `thread_pool/thread_pool.h:74-115` | from every state there is a run without new calls to a state where nothing else can move |
| `ThreadPool.FinishedRunServes` | `thread_pool/thread_pool.h:74-115` | a run without new calls that cannot go on ends with the queue empty and every accepted non-null request processed |
| `TaskPool.TaskPool.Make` | `thread_pool/thread_pool.h:35-64` | null exactly for a non-positive argument; otherwise an empty pool in the machine's initial state |
| `TaskPool.TaskPool.Append` | `thread_pool/thread_pool.h:74-86` | a whole call, with the other threads standing still anywhere outside the mutex, takes exactly the machine's steps in the source's order: accepted exactly when the queue is at most `max_requests` long, then pushed last and posted once; otherwise nothing changes |
| `TaskPool.TaskPool.PushAndPost` | `thread_pool/thread_pool.h:82-84` | push, unlock and post, in the machine's steps and order |
| `TaskPool.TaskPool.Fetch` | `thread_pool/thread_pool.h:101-110` | a worker with a token takes the front request and one token, in exactly the machine's steps, and goes on to serve it exactly when it is not null |
| `TaskPool.TaskPool.PopFront` | `thread_pool/thread_pool.h:103-110` | the branch for an empty queue is dead code on the real fields too, and the front request is taken |
| `TaskPool.RecordedOn` | `thread_pool/thread_pool.h:113` | the calls of process() stay those of the requests whose tickets are done, one each |
| `TaskPool.TaskPool.Serve` | `thread_pool/thread_pool.h:113` | process() is called for the request the worker holds, and its ticket is done |
| `TaskPool.TaskPool.Round` | `thread_pool/thread_pool.h:101-114` | one token and the front request are taken, and process() is called for it exactly when it is not null |
| `TaskPool.TaskPool.Turn` | `thread_pool/thread_pool.h:99-114` | one turn of the worker's loop: goes on exactly when the pool is not stopped and a token is there, and then the front request is gone and process() was called for it exactly when it is not null |
| `TaskPool.TaskPool.Run` | `thread_pool/thread_pool.h:97-115` | a worker left alone calls process() for exactly the non-null requests that a token stood for, in queue order and once each, and stops only where wait blocks or the pool is stopped |
| `LineScanner.ScanMeets` | `thread_pool/http_conn.cc:98-129` | from every place where scanning may resume the branches compute: no LF gives LINE_OPEN; a first LF with CR just before it gives LINE_OK past it with both bytes zeroed; any other first LF gives LINE_BAD; and scanning may resume from the result |
| `LineScanner.LineSpecPlain` | `thread_pool/http_conn.cc:98-129` | what the first LF decides, byte by byte, for each status |
| `LineScanner.LookBehindUnreachable` | `thread_pool/http_conn.cc:119-124` | no call from such a place ends in the look-behind success |
| `LineScanner.OpenResumes` | `thread_pool/http_conn.cc:106-109` | a call that ends in LINE_OPEN leaves the bytes alone, and resuming after more bytes equals one call on the whole |
| `LineScanner.LineExtends` | `thread_pool/http_conn.cc:110-125` | a call that finds the end of a line, good or bad, is not affected by later bytes |
| `LineScanner.DrainExtends` | `thread_pool/http_conn.cc:98-129` | draining all lines, then adding bytes and draining on, equals one drain of the whole |
| `LineScanner.FeedIsDrain` | `thread_pool/http_conn.cc:98-129` | for every way of cutting the input into chunks: same lines, same final status, same index, same bytes as one drain of the whole |
| `LineScanner.DrainPrints` | `thread_pool/http_conn.cc:98-129` | the drained lines, printed with CRLF, followed by the rest, give the input back |
| `LineScanner.PrintedDrains` | `thread_pool/http_conn.cc:98-129` | lines without LF, printed with CRLF and followed by bytes without LF, are drained exactly |
| `LineScanner.AnyChunking` | `thread_pool/http_conn.cc:98-129` | printed lines come back exactly, under every cutting of the bytes into chunks |
| `RequestLine.ParseIsGrammar` | `thread_pool/http_conn.cc:158-198` | a line is accepted with path p if and only if it is GET, blanks, a target, blanks, HTTP/1.1 (keywords in any case) and the target is p, starting with '/', or http:// in any case, a host without '/', and p |
| `RequestLine.PlainRequestParses` | `thread_pool/http_conn.cc:158-198` | round trip over plain characters: GET, spaces and tabs, a path (or http://, a host and a path), spaces and tabs, HTTP/1.1, with every letter of the keywords in either case, parses to that path |
| `RequestLine.AcceptedIsPlain` | `thread_pool/http_conn.cc:158-198` | the converse in the same plain characters: every accepted line has that shape, and the answer is its path |
| `RequestLine.PathIsTarget` | `thread_pool/http_conn.cc:187-195` | a target yields path p if and only if it has one of those two forms for p |
| `RequestLine.PrintedParses` | `thread_pool/http_conn.cc:158-198` | every printed request, in either form, with any blanks and any spelling of the keywords and the scheme, parses back to its path |
| `RequestLine.RequestIsUnambiguous` | `thread_pool/http_conn.cc:158-198` | a line is a request for at most one path |
| `RequestLine.SplitsGrammar` | `thread_pool/http_conn.cc:160-182` | a line of the grammar is split into exactly its three words |
| `RequestLine.SplitJoins` | `thread_pool/http_conn.cc:160-182` | a line that is split is its three words with two non-empty runs of blanks between them |
| `RequestLine.CutOf` | `thread_pool/http_conn.cc:160-175` | a word, a run of blanks and a rest are cut into exactly the word and the rest |
| `RequestLine.CutJoins` | `thread_pool/http_conn.cc:160-175` | what is cut is a blank-free word, a non-empty run of blanks and a rest that starts with no blank |
| `RequestLine.OriginFormParses` | `thread_pool/http_conn.cc:187-195` | every printed origin-form request parses back to its path |
| `RequestLine.AbsoluteFormParses` | `thread_pool/http_conn.cc:187-195` | every printed absolute-form request parses back to its path |
| `HttpConn.Connection.constructor` | `thread_pool/http_conn.h:45` | the buffer exists and nothing else is promised before init() |
| `HttpConn.Connection.Init` | `thread_pool/http_conn.cc:79-96` | all indices, the parse state and the buffer are reset, whatever they were |
| `HttpConn.Connection.ParseLine` | `thread_pool/http_conn.cc:98-129` | the status, index and bytes are exactly those the first LF decides, spelled out byte by byte; nothing past the bytes read changes, and scanning may be resumed |
| `HttpConn.Connection.EndLine` | `thread_pool/http_conn.cc:112-113` | CR and LF are zeroed, nothing else changes, and the index moves past them |
| `HttpConn.Connection.Read` | `thread_pool/http_conn.cc:131-156` | received bytes are appended in order behind the old ones; success exactly when the socket would block with room left, so fewer than 2048 bytes in all are always taken and an exactly filled buffer is refused; a pending scan may resume |
| `HttpConn.CutInPlace` | `thread_pool/http_conn.cc:160-175` | writing NUL over the first blank leaves, as C strings in the same buffer, the word before it and what follows the blanks |
| `HttpConn.FoundLine` | `thread_pool/http_conn.cc:104-124` | a line just found is a C string that ends inside the buffer: its text up to a NUL in it, all of it if there is none |
| `HttpConn.CStrIs` | `thread_pool/http_conn.cc:158-198` | NUL-free text that is followed by a NUL is the C string at its position |
| `HttpConn.Connection.FindPath` | `thread_pool/http_conn.cc:187-195` | a pointer exactly when the target has a path, and then the path is the C string it points to |
| `HttpConn.Connection.ParseTarget` | `thread_pool/http_conn.cc:176-195` | the second half of the line: accepted exactly when the version is HTTP/1.1 and the target has a path, which `m_url` then points to |
| `HttpConn.Connection.ParseRequestLine` | `thread_pool/http_conn.cc:158-198` | NO_REQUEST exactly when the line parses; `m_url` is then the C string of exactly its path and headers come next; otherwise the state stays; only blanks are overwritten, and the scanner may go on |
| `HttpConn.Connection.AnswerInPlain` | `thread_pool/http_conn.cc:158-198` | parse_request_line over plain characters, both ways: what is printed in that shape is accepted with its path, and what is accepted has that shape |
| `HttpConn.Connection.CutAt` | `thread_pool/http_conn.cc:165` | writing NUL over a blank changes that byte alone and does not disturb the scanner |
| `HttpConn.Connection.Append` | `thread_pool/http_conn.cc:140-153` | one recv puts its bytes behind those already there |
| `HttpConn.Connection.TakeRequestLine` | `thread_pool/http_conn.cc:249-263` | scanning and, when the line is there, parsing it: the status is what the first LF decides; NO_REQUEST exactly when that line parses, with `m_url` at its path; otherwise nothing changes but the index |
| `HttpConn.Connection.ReadRequest` | `thread_pool/http_conn.cc:98-198` | from received bytes to the path, under every cutting into chunks of fewer than 2048 bytes in all: status and answer are those of the first line of all the bytes together, and `m_url` is its path |
| `HttpConn.Connection.ReadPrinted` | `thread_pool/http_conn.cc:98-198` | from the network to the path in plain characters: every printed request of fewer than 2048 bytes with what follows it, under every cutting into chunks, is accepted and `m_url` is exactly its path |
| `HttpConn.PlainRequestIsOneLine` | `thread_pool/http_conn.cc:98-198` | the bytes of a printed request, over plain characters, are one line that parses to its path |
| `HttpConn.PrintedRequest` | `thread_pool/http_conn.cc:98-198` | a printed request for path p, with anything behind it, is one line that parses to p |
| `RoundRobin.SearchStep` | `process_pool/process_pool.h:302-309` | each probe is one place further from the start of the search until it is back where it began |
| `RoundRobin.AliveShrinks` | `process_pool/process_pool.h:333-344` | over every run the dead stay dead |
| `RoundRobin.TurnKept` | `process_pool/process_pool.h:298-317` | in a step that is not a dispatch to c, the cursor passes a live child d exactly when d is dispatched to; deaths of others do not matter |
| `RoundRobin.TurnsKept` | `process_pool/process_pool.h:298-344` | since c's last turn exactly the live children the cursor has passed had a turn, one each, in every run with deaths |
| `RoundRobin.Fairness` | `process_pool/process_pool.h:298-344` | between two successive dispatches to the same child, every other child alive throughout gets exactly one |
| `RoundRobin.CursorNears` | `process_pool/process_pool.h:298-344` | every dispatch that is not to d brings the cursor nearer to a live d |
| `RoundRobin.NoStarvation` | `process_pool/process_pool.h:298-344` | of any n dispatches in a row at least one goes to each child alive throughout, whoever else dies |
| `ProcessPool.Pool.constructor` | `process_pool/process_pool.h:117-146` | the table holds the forked process numbers and the search starts at child 0 |
| `ProcessPool.Pool.Dispatch` | `process_pool/process_pool.h:298-317` | with every entry -1 the pool stops and nothing else changes; otherwise child x is told, once, the entries from the cursor round to before x are all -1, the cursor is x + 1 or 0, and the number of probes is the distance plus one; a stopped pool has no live child |
| `ProcessPool.Pool.Search` | `process_pool/process_pool.h:301-309` | ends within n probes at the first live child from the cursor, or where it began when there is none |
| `ProcessPool.Pool.Send` | `process_pool/process_pool.h:315-316` | that child is told and the cursor moves behind it |
| `ProcessPool.Pool.Reap` | `process_pool/process_pool.h:333-358` | exactly the reported children are marked dead, and the pool is stopped if and only if every entry is -1 |

## Left out

- Sockets, epoll, fork, signals, pipes, files and threads: only their effect on the modelled state, as abstract steps (a connection arrives, `recv` returned so much, a child died, the alarm rings). Clock readings are parameters and, in the event loop, do not go back.
- Memory: `delete` is not modelled, so use after deletion is not either. `pop_timer` writes the index of the timer it has just deleted when the heap empties (timer/min_heap_timer.h:126-129); in the model this write is harmless. Allocation does not fail.
- Integer widths: `int` and `time_t` are unbounded here, except that `alarm` takes its argument as a 32-bit unsigned number.
- Callbacks run to completion and do not call back into the container that runs them. In the event loop the callback is the close action; its `epoll_ctl` acts on a shadowed descriptor (timer/inactive_timer.cc:20, 69, 92) and is not modelled.
- Undefined calls: adding to or ticking a heap made with capacity 0 (doubling gives no room, timer/min_heap_timer.h:177; `tick` reads position 0 first, line 136), a negative capacity, a timer added twice or deleted when it is in no container, and a failed `accept` whose result -1 is used as an index (timer/inactive_timer.cc:123-126).
- Heap order among equal deadlines: left open, as the code's choice depends on the history of the array.
- `tail` of the sorted list means something only while there is a head, because `tick` leaves it dangling when it empties the list (timer/list_timer.h:121-133).
- `ServerSpec.RunStaysAwake`: the half of `ServerSpec.AwakeExactlyInTime` that assumes handlers whose second clock reading precedes every deadline they leave; without that the claim is false (`ServerSpec.HandlerMaySleepForever`). SIGALRM is assumed to reach the pipe, and the pipe to be read whole.
- `ThreadPool.RunKeepsInv`: the interleaved pool is a state machine on values, since its claims are about many threads at once; the class `TaskPool` ties its steps to the code of one thread that runs while the others stand still. `wait` returns only with a token, and the unlocked read of `m_stop` is atomic.
- `ThreadPool.QuietIsDone`: assumes the pool is not stopped; shutdown and the destructor, which frees the thread table only, are left out, as is a failing `pthread_create`.
- `TimerPair.Add`: one new timer object for each container, with the same deadline; the map between the two is a ghost parameter. Positions in the list (`k`) are ghost parameters that only name where a node stands.
- `HttpConn.Connection.ParseRequestLine`: the C library's string functions are modelled on the bytes up to the next NUL, and `tolower` in the C locale.
- `HttpConn.Connection.TakeRequestLine`: stands for the scan and for lines 251-258 in the case that a line was found; the loop condition around them (thread_pool/http_conn.cc:249) compares where it should assign, so `process_read` as written enters its loop when no line was found. That loop is not modelled.
- `http_conn::process_read`, `parse_headers` and `parse_content`: line 249 of thread_pool/http_conn.cc has that fault, and an unfinished body is scanned for lines again, so the driver does not do what it is meant to do.
- `http_conn::write`, `process_write`, `add_headers` and `do_request`: response building and its byte accounting.
- Who owns a connection across `close_conn` in thread_pool/main.cc, the child side of the process pool, and SIGTERM or SIGINT forwarding in the parent.
- `multi_thread/locker.h` beyond a counter and an owner; the chat server, the shared-memory variant, the clients and the select, poll and epoll demonstrations, which have no further state machine worth a proof or do not keep their own tables as written.

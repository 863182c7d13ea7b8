/**
 What the time wheel promises, with no slots and no rotations: each pending timer counts
 down by one at every tick, and fires at the tick that finds it at zero.
 */
module WheelSpec {
  import opened Lists

  datatype Op<T> = Add(timer: T, ticks: nat) | Del(timer: T) | Tick

  /** The timers a tick fires. */
  ghost function Due<T>(left: map<T, nat>): set<T> {
    set t | t in left && left[t] == 0
  }

  /** The pending timers after a tick. */
  ghost function Survivors<T>(left: map<T, nat>): map<T, nat> {
    map t | t in left && left[t] > 0 :: left[t] - 1
  }

  ghost function Step<T>(left: map<T, nat>, op: Op<T>): map<T, nat> {
    match op
    case Add(t, ticks) => left[t := ticks]
    case Del(t) => left - {t}
    case Tick => Survivors(left)
  }

  ghost function TickCount<T>(ops: seq<Op<T>>): nat {
    if ops == [] then 0 else (if ops[0].Tick? then 1 else 0) + TickCount(ops[1..])
  }

  /** The ticks of the run `ops` (counted from `k`) at which `t` fires, in order. */
  ghost function FiringTicks<T>(left: map<T, nat>, ops: seq<Op<T>>, t: T, k: nat): seq<nat>
    decreases |ops|
  {
    if ops == [] then []
    else
      (if ops[0].Tick? && t in Due(left) then [k] else []) +
      FiringTicks(Step(left, ops[0]), ops[1..], t, if ops[0].Tick? then k + 1 else k)
  }

  /** The caller neither deletes `t` nor adds it again (every added timer is a new object). */
  ghost predicate LeavesAlone<T>(ops: seq<Op<T>>, t: T) {
    forall op :: op in ops ==> op.Tick? || op.timer != t
  }

  lemma {:induction false} AbsentNeverFires<T>(left: map<T, nat>, ops: seq<Op<T>>, t: T, k: nat)
    requires t !in left && LeavesAlone(ops, t)
    ensures FiringTicks(left, ops, t, k) == []
    decreases |ops|
  {
    if ops != [] {
      assert ops[0] in ops && forall op :: op in ops[1..] ==> op in ops;
      AbsentNeverFires(Step(left, ops[0]), ops[1..], t, if ops[0].Tick? then k + 1 else k);
    }
  }

  lemma {:induction false} PendingFiresOnce<T>(left: map<T, nat>, ops: seq<Op<T>>, t: T, k: nat)
    requires t in left && LeavesAlone(ops, t)
    ensures FiringTicks(left, ops, t, k) == if TickCount(ops) > left[t] then [k + left[t]] else []
    decreases |ops|
  {
    if ops != [] {
      assert ops[0] in ops && forall op :: op in ops[1..] ==> op in ops;
      var now, k' := FiringTicksUnfold(left, ops, t, k);
      hide FiringTicks, TickCount, Run;
      if t in Step(left, ops[0]) {
        PendingFiresOnce(Step(left, ops[0]), ops[1..], t, k');
      } else {
        AbsentNeverFires(Step(left, ops[0]), ops[1..], t, k');
      }
    }
  }

  /** A timer added for `ticks` and then left alone fires exactly once, at tick number
      `ticks` counting from zero, whatever is added or deleted in between. */
  lemma AddedFiresOnce<T>(left: map<T, nat>, t: T, ticks: nat, ops: seq<Op<T>>)
    requires LeavesAlone(ops, t)
    ensures FiringTicks(left, [Add(t, ticks)] + ops, t, 0) == if TickCount(ops) > ticks then [ticks] else []
  {
    assert ([Add(t, ticks)] + ops)[1..] == ops;
    PendingFiresOnce(left[t := ticks], ops, t, 0);
  }

  lemma DeletedIsAbsent<T>(left: map<T, nat>, t: T, after: seq<Op<T>>, k: nat)
    requires LeavesAlone(after, t)
    ensures FiringTicks(left, [Del(t)] + after, t, k) == []
  {
    assert ([Del(t)] + after)[1..] == after;
    AbsentNeverFires(left - {t}, after, t, k);
  }

  /** A timer deleted before its tick comes never fires. */
  lemma DeletedNeverFires<T>(left: map<T, nat>, t: T, ticks: nat, before: seq<Op<T>>, after: seq<Op<T>>)
    requires LeavesAlone(before, t) && LeavesAlone(after, t)
    requires TickCount(before) <= ticks
    ensures FiringTicks(left, [Add(t, ticks)] + before + [Del(t)] + after, t, 0) == []
  {
    hide FiringTicks, TickCount, Run, Step, LeavesAlone;
    var ops, rest := [Add(t, ticks)] + before, [Del(t)] + after;
    assert ops + rest == [Add(t, ticks)] + before + [Del(t)] + after;
    AddedFiresOnce(left, t, ticks, before);
    FiringTicksConcat(left, ops, rest, t, 0);
    DeletedIsAbsent(Run(left, ops), t, after, TickCount(ops));
  }

  ghost function Run<T>(left: map<T, nat>, ops: seq<Op<T>>): map<T, nat>
    decreases |ops|
  {
    if ops == [] then left else Run(Step(left, ops[0]), ops[1..])
  }

  lemma FiringTicksUnfold<T>(left: map<T, nat>, ops: seq<Op<T>>, t: T, k: nat) returns (now: seq<nat>, k': nat)
    requires ops != []
    ensures now == if ops[0].Tick? && t in Due(left) then [k] else []
    ensures k' == if ops[0].Tick? then k + 1 else k
    ensures FiringTicks(left, ops, t, k) == now + FiringTicks(Step(left, ops[0]), ops[1..], t, k')
    ensures Run(left, ops) == Run(Step(left, ops[0]), ops[1..]) && k + TickCount(ops) == k' + TickCount(ops[1..])
  {
    now, k' := if ops[0].Tick? && t in Due(left) then [k] else [], if ops[0].Tick? then k + 1 else k;
  }

  lemma {:induction false} FiringTicksConcat<T>(left: map<T, nat>, a: seq<Op<T>>, b: seq<Op<T>>, t: T, k: nat)
    ensures FiringTicks(left, a + b, t, k) ==
            FiringTicks(left, a, t, k) + FiringTicks(Run(left, a), b, t, k + TickCount(a))
    decreases |a|
  {
    if a == [] {
      assert a + b == b;
    } else {
      hide FiringTicks, Run, TickCount, Step, Due;
      assert (a + b)[1..] == a[1..] + b && (a + b)[0] == a[0];
      var now, k' := FiringTicksUnfold(left, a, t, k);
      var now', _ := FiringTicksUnfold(left, a + b, t, k);
      FiringTicksConcat(Step(left, a[0]), a[1..], b, t, k');
      ConcatAssoc(now, FiringTicks(Step(left, a[0]), a[1..], t, k'), FiringTicks(Run(left, a), b, t, k + TickCount(a)));
    }
  }

  /** What falls due at each tick of a run. */
  ghost function Dues<T>(left: map<T, nat>, ops: seq<Op<T>>): (d: seq<set<T>>)
    ensures |d| == TickCount(ops)
    decreases |ops|
  {
    if ops == [] then []
    else (if ops[0].Tick? then [Due(left)] else []) + Dues(Step(left, ops[0]), ops[1..])
  }

  /** One more call at the end of a run. */
  lemma {:induction false} RunOn<T>(left: map<T, nat>, ops: seq<Op<T>>, op: Op<T>)
    ensures Run(left, ops + [op]) == Step(Run(left, ops), op)
    ensures Dues(left, ops + [op]) == Dues(left, ops) + if op.Tick? then [Due(Run(left, ops))] else []
    decreases |ops|
  {
    if ops == [] {
      assert (ops + [op])[1..] == [];
    } else {
      assert (ops + [op])[1..] == ops[1..] + [op];
      RunOn(Step(left, ops[0]), ops[1..], op);
    }
  }

  lemma {:induction false} RunConcat<T>(left: map<T, nat>, a: seq<Op<T>>, b: seq<Op<T>>)
    ensures Run(left, a + b) == Run(Run(left, a), b)
    ensures Dues(left, a + b) == Dues(left, a) + Dues(Run(left, a), b)
    decreases |b|
  {
    if b == [] {
      assert a + b == a;
    } else {
      var n := |b| - 1;
      assert a + b == (a + b[..n]) + [b[n]] && b == b[..n] + [b[n]];
      RunOn(left, a + b[..n], b[n]);
      RunConcat(left, a, b[..n]);
      RunOn(Run(left, a), b[..n], b[n]);
    }
  }

  /** The ticks at which `t` fires are those at which it falls due. */
  lemma {:induction false} FiresWhenDue<T>(left: map<T, nat>, ops: seq<Op<T>>, t: T, k: nat)
    ensures forall n :: n in FiringTicks(left, ops, t, k) <==> k <= n < k + |Dues(left, ops)| && t in Dues(left, ops)[n - k]
    decreases |ops|
  {
    if ops != [] {
      var now, k' := FiringTicksUnfold(left, ops, t, k);
      FiresWhenDue(Step(left, ops[0]), ops[1..], t, k');
      var rest := Dues(Step(left, ops[0]), ops[1..]);
      assert Dues(left, ops) == (if ops[0].Tick? then [Due(left)] else []) + rest;
      hide FiringTicks, Dues, TickCount, Run, Step, Due;
    }
  }

  /** From the call that adds it, a timer that is left alone falls due at exactly one tick. */
  lemma AddedFallsDueOnce<T>(left: map<T, nat>, before: seq<Op<T>>, t: T, ticks: nat, after: seq<Op<T>>)
    requires LeavesAlone(after, t)
    ensures var d := Dues(left, before + [Add(t, ticks)] + after);
      forall n :: TickCount(before) <= n < |d| ==> (t in d[n] <==> n == TickCount(before) + ticks)
  {
    hide FiringTicks, LeavesAlone, Step, Dues, Run, TickCount, Due, Survivors;
    var added := before + [Add(t, ticks)];
    RunOn(left, before, Add(t, ticks));
    RunConcat(left, added, after);
    AfterAdd(Run(left, before), t, ticks);
    PendingFiresOnce(Run(left, added), after, t, 0);
    FiresWhenDue(Run(left, added), after, t, 0);
    var c, d, e := Dues(left, before), Dues(left, added + after), Dues(Run(left, added), after);
    var ft := FiringTicks(Run(left, added), after, t, 0);
    assert |c| == TickCount(before) && |e| == TickCount(after) && d == c + e;
    forall n | |c| <= n < |d|
      ensures t in d[n] <==> n == |c| + ticks
    {
      var m := n - |c|;
      assert d[n] == e[m] && (m in ft <==> t in e[m]) && (m in ft <==> m == ticks);
    }
  }

  /** A timer deleted before its tick falls due at no later tick. */
  lemma DeletedNeverFallsDue<T>(left: map<T, nat>, before: seq<Op<T>>, t: T, ticks: nat, mid: seq<Op<T>>, after: seq<Op<T>>)
    requires LeavesAlone(mid, t) && LeavesAlone(after, t) && TickCount(mid) <= ticks
    ensures var d := Dues(left, before + ([Add(t, ticks)] + mid + [Del(t)] + after));
      forall n :: TickCount(before) <= n < |d| ==> t !in d[n]
  {
    hide FiringTicks, LeavesAlone, Step, Dues, Run, TickCount, Due, Survivors;
    var rest := [Add(t, ticks)] + mid + [Del(t)] + after;
    RunConcat(left, before, rest);
    DeletedNeverFires(Run(left, before), t, ticks, mid, after);
    FiresWhenDue(Run(left, before), rest, t, 0);
    var c, d, e := Dues(left, before), Dues(left, before + rest), Dues(Run(left, before), rest);
    assert |c| == TickCount(before) && d == c + e;
    forall n | |c| <= n < |d|
      ensures t !in d[n]
    {
      var m := n - |c|;
      assert d[n] == e[m] && m !in FiringTicks(Run(left, before), rest, t, 0);
    }
  }

  lemma AfterAdd<T>(left: map<T, nat>, t: T, ticks: nat)
    ensures t in Step(left, Add(t, ticks)) && Step(left, Add(t, ticks))[t] == ticks
  {
  }
}

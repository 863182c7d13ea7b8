/** process_pool/process_pool.h: the parent's choice of a child and its bookkeeping of the dead. */
module ProcessPool {
  import opened RoundRobin

  const MAX_PROCESS_NUMBER := 16

  class Pool {
    var pids: array<int> // m_sub_process[i].m_pid, -1 once the child is gone
    var counter: int     // sub_process_counter
    var stop: bool
    ghost var sent: seq<nat> // the children that were told about a connection, in order

    ghost predicate Valid()
      reads this, pids
    {
      && 0 < pids.Length <= MAX_PROCESS_NUMBER
      && 0 <= counter < pids.Length
      && (forall i :: 0 <= i < pids.Length ==> pids[i] == -1 || pids[i] > 0)
      && (stop ==> Live() == {})
    }

    ghost function Live(): set<nat>
      reads this, pids
    {
      set i: nat | i < pids.Length && pids[i] != -1
    }

    ghost function State(): Ring
      requires Valid()
      reads this, pids
    {
      Ring(pids.Length, Live(), counter)
    }

    /** `forked` are the process numbers fork returned. */
    constructor (forked: seq<int>)
      requires 0 < |forked| <= MAX_PROCESS_NUMBER && forall i :: 0 <= i < |forked| ==> forked[i] > 0
      ensures Valid() && fresh(pids) && pids[..] == forked && counter == 0 && !stop && sent == []
    {
      pids := new int[|forked|](i requires 0 <= i < |forked| => forked[i]);
      counter, stop, sent := 0, false, [];
    }

    /** A new connection: looks for a live child from the cursor on, once around at most. */
    method Dispatch() returns (ghost probes: nat, ghost x: nat)
      requires Valid()
      modifies this`counter, this`stop, this`sent
      ensures Valid() && 1 <= probes <= pids.Length
      ensures old(Live()) == {} ==> stop && sent == old(sent) && counter == old(counter)
      ensures old(Live()) != {} ==>
        stop == old(stop) && exists x: nat :: sent == old(sent) + [x] && Next(old(State()), Sent(x), State())
      ensures (forall i :: 0 <= i < pids.Length ==> pids[i] == -1) ==> stop && sent == old(sent) && counter == old(counter)
      ensures (exists i :: 0 <= i < pids.Length && pids[i] != -1) ==>
        && x < pids.Length && pids[x] != -1 && stop == old(stop) && sent == old(sent) + [x]
        && counter == (if x + 1 == pids.Length then 0 else x + 1)
        && (forall y :: 0 <= y < pids.Length && (if old(counter) <= x then old(counter) <= y < x else y >= old(counter) || y < x) ==>
              pids[y] == -1)
        && probes == 1 + if old(counter) <= x then x - old(counter) else x - old(counter) + pids.Length
    {
      hide Dist, Succ, Next, Picks;
      var i: int;
      i, probes := Search();
      x := i;
      LiveIs(x);
      if pids[i] == -1 {
        stop := true;
        return;
      }
      FoundInPlain(pids[..], counter, x, probes);
      FirstLive(x, probes);
      Send(i);
    }

    lemma LiveIs(x: nat)
      requires x < pids.Length
      ensures x in Live() <==> pids[x] != -1
      ensures Live() == {} <==> forall y: nat :: y < pids.Length ==> pids[y] == -1
    {
      assert forall y: nat :: y in Live() <==> y < pids.Length && pids[y] != -1;
    }

    lemma FirstLive(x: nat, probes: nat)
      requires Valid() && x < pids.Length && pids[x] != -1
      requires probes == 1 + Dist(pids.Length, counter, x)
      requires forall y: nat :: y < pids.Length && Dist(pids.Length, counter, y) < probes - 1 ==> pids[y] == -1
      ensures Picks(State(), x)
    {
      hide Dist;
    }

    /** Tells child `i` and moves the cursor behind it. */
    method Send(i: int)
      requires Valid() && 0 <= i < pids.Length && Picks(State(), i)
      modifies this`counter, this`sent
      ensures Valid() && sent == old(sent) + [i as nat]
      ensures counter == if i + 1 == pids.Length then 0 else i + 1
      ensures Next(old(State()), Sent(i), State())
    {
      hide Dist, Picks, Succ;
      SuccIs(pids.Length, i);
      sent := sent + [i];
      counter := Succ(pids.Length, i);
    }

    /** The do-while loop: from the cursor on, once around at most. */
    method Search() returns (i: int, ghost probes: nat)
      requires Valid()
      ensures 0 <= i < pids.Length && 1 <= probes <= pids.Length
      ensures pids[i] == -1 ==> forall y: nat :: y < pids.Length ==> pids[y] == -1
      ensures pids[i] != -1 ==>
        && probes == 1 + Dist(pids.Length, counter, i)
        && forall y: nat :: y < pids.Length && Dist(pids.Length, counter, y) < probes - 1 ==> pids[y] == -1
    {
      hide Dist, Succ;
      i, probes := counter, 1;
      SearchStep(pids.Length, counter, i);
      while pids[i] == -1
        invariant 0 <= i < pids.Length && 1 <= probes <= pids.Length
        invariant probes == 1 + Dist(pids.Length, counter, i)
        invariant forall y: nat :: y < pids.Length && Dist(pids.Length, counter, y) < probes - 1 ==> pids[y] == -1
        decreases pids.Length - probes
      {
        SearchStep(pids.Length, counter, i);
        i := Succ(pids.Length, i);
        if i == counter {
          break;
        }
        probes := probes + 1;
      }
      if pids[i] == -1 {
        assert forall y: nat :: y < pids.Length ==> Dist(pids.Length, counter, y) < pids.Length;
      }
    }

    /** What a search has seen, place by place. */
    static lemma FoundInPlain(p: seq<int>, c: nat, x: nat, probes: nat)
      requires c < |p| && x < |p| && probes == 1 + Dist(|p|, c, x)
      requires forall y: nat :: y < |p| && Dist(|p|, c, y) < probes - 1 ==> p[y] == -1
      ensures probes == 1 + if c <= x then x - c else x - c + |p|
      ensures forall y :: 0 <= y < |p| && (if c <= x then c <= y < x else y >= c || y < x) ==> p[y] == -1
    {
      forall y | 0 <= y < |p| && (if c <= x then c <= y < x else y >= c || y < x)
        ensures p[y] == -1
      {
        assert Dist(|p|, c, y) < probes - 1;
      }
    }

    /** SIGCHLD: `dead` are the process numbers waitpid reports. */
    method Reap(dead: seq<int>)
      requires Valid() && forall k :: 0 <= k < |dead| ==> dead[k] > 0
      modifies this`stop, pids
      ensures Valid()
      ensures forall i :: 0 <= i < pids.Length ==> pids[i] == if old(pids[i]) in dead then -1 else old(pids[i])
      ensures Next(old(State()), Died(set i: nat | i < pids.Length && old(pids[i]) in dead), State())
      ensures stop <==> Live() == {}
      ensures stop <==> forall i :: 0 <= i < pids.Length ==> pids[i] == -1
    {
      for k := 0 to |dead|
        invariant forall i :: 0 <= i < pids.Length ==> pids[i] == if old(pids[i]) in dead[..k] then -1 else old(pids[i])
      {
        for i := 0 to pids.Length
          invariant forall j :: 0 <= j < i ==> pids[j] == if old(pids[j]) in dead[..k + 1] then -1 else old(pids[j])
          invariant forall j :: i <= j < pids.Length ==> pids[j] == if old(pids[j]) in dead[..k] then -1 else old(pids[j])
        {
          assert dead[..k + 1] == dead[..k] + [dead[k]];
          if pids[i] == dead[k] {
            pids[i] := -1;
          }
        }
      }
      assert dead[..|dead|] == dead;
      stop := true;
      ghost var now := pids[..];
      for i := 0 to pids.Length
        invariant pids[..] == now
        invariant stop ==> forall j :: 0 <= j < i ==> now[j] == -1
        invariant !stop ==> exists j :: 0 <= j < i && now[j] != -1
      {
        if pids[i] != -1 {
          stop := false;
        }
      }
      if !stop {
        ghost var j: nat :| j < pids.Length && now[j] != -1;
        assert j in Live();
      }
    }
  }
}

/** Handing work to the live members of a ring in turn, while members die. */
module RoundRobin {

  /** `n` places, the places still alive, and where the next search starts. */
  datatype Ring = Ring(n: nat, alive: set<nat>, cursor: nat)

  ghost predicate WellFormed(r: Ring) {
    r.cursor < r.n && forall x :: x in r.alive ==> x < r.n
  }

  /** Steps forward from place `a` to place `b`. */
  function Dist(n: nat, a: nat, b: nat): (d: nat)
    requires a < n && b < n
    ensures d < n
  {
    if b >= a then b - a else b - a + n
  }

  function Succ(n: nat, a: nat): (b: nat)
    requires a < n
    ensures b < n
  {
    (a + 1) % n
  }

  /** `x` is the first live place at or after the cursor. */
  ghost predicate Picks(r: Ring, x: nat)
    requires WellFormed(r)
  {
    x in r.alive && forall y :: y in r.alive ==> Dist(r.n, r.cursor, x) <= Dist(r.n, r.cursor, y)
  }

  datatype Event = Sent(child: nat) | Died(dead: set<nat>)

  ghost predicate Next(r: Ring, ev: Event, r': Ring)
    requires WellFormed(r)
  {
    match ev
    case Sent(x) => Picks(r, x) && r' == r.(cursor := Succ(r.n, x))
    case Died(dead) => r' == r.(alive := r.alive - dead)
  }

  ghost predicate Run(rs: seq<Ring>, evs: seq<Event>) {
    && |rs| == |evs| + 1
    && (forall i :: 0 <= i < |rs| ==> WellFormed(rs[i]))
    && forall i :: 0 <= i < |evs| ==> Next(rs[i], evs[i], rs[i + 1])
  }

  /** How many of the events from `lo` to before `hi` were sent to `d`. */
  ghost function Count(evs: seq<Event>, lo: nat, hi: nat, d: nat): nat
    requires lo <= hi <= |evs|
    decreases hi
  {
    if lo == hi then 0 else Count(evs, lo, hi - 1, d) + if evs[hi - 1] == Sent(d) then 1 else 0
  }

  lemma SuccIs(n: nat, a: nat)
    requires a < n
    ensures Succ(n, a) == if a + 1 == n then 0 else a + 1
  {
  }

  /** A search that began at `c` starts at distance 0; one step on it is one place further or
      back where it began; no two places are equally far. */
  lemma SearchStep(n: nat, c: nat, a: nat)
    requires c < n && a < n
    ensures Dist(n, c, c) == 0
    ensures if Succ(n, a) == c then Dist(n, c, a) == n - 1 else Dist(n, c, Succ(n, a)) == Dist(n, c, a) + 1
    ensures forall y :: 0 <= y < n && Dist(n, c, y) == Dist(n, c, a) ==> y == a
  {
    SuccIs(n, a);
  }

  /** The dead stay dead. */
  lemma {:induction false} AliveShrinks(rs: seq<Ring>, evs: seq<Event>, i: nat, j: nat)
    requires Run(rs, evs) && i <= j <= |evs|
    ensures rs[j].alive <= rs[i].alive && rs[j].n == rs[i].n
    decreases j - i
  {
    if i < j {
      AliveShrinks(rs, evs, i, j - 1);
      assert Next(rs[j - 1], evs[j - 1], rs[j]);
    }
  }

  /** Whether the cursor has passed `d` since the last turn of `c`. */
  function Passed(r: Ring, c: nat, d: nat): nat
    requires r.cursor < r.n && c < r.n && d < r.n
  {
    if Dist(r.n, Succ(r.n, c), d) < Dist(r.n, Succ(r.n, c), r.cursor) then 1 else 0
  }

  /** The cursor passes a live `d` exactly when `d` has its turn. */
  lemma TurnKept(r: Ring, ev: Event, r': Ring, c: nat, d: nat)
    requires WellFormed(r) && WellFormed(r') && Next(r, ev, r')
    requires c in r.alive && d in r.alive && ev != Sent(c)
    ensures Passed(r', c, d) == Passed(r, c, d) + if ev == Sent(d) then 1 else 0
  {
    SuccIs(r.n, c);
    match ev
    case Died(_) =>
    case Sent(x) => SuccIs(r.n, x);
  }

  /** Since the last turn of `c`, exactly the live places passed by the cursor had a turn, one each. */
  lemma {:induction false} TurnsKept(rs: seq<Ring>, evs: seq<Event>, p: nat, q: nat, c: nat, d: nat)
    requires Run(rs, evs) && p < q <= |evs| && evs[p] == Sent(c) && c in rs[q].alive
    requires forall i :: p < i < q ==> evs[i] != Sent(c)
    requires d in rs[q].alive
    ensures Count(evs, p + 1, q, d) == Passed(rs[q], c, d)
    decreases q
  {
    AliveShrinks(rs, evs, q - 1, q);
    assert Next(rs[q - 1], evs[q - 1], rs[q]);
    if p + 1 < q {
      TurnsKept(rs, evs, p, q - 1, c, d);
      TurnKept(rs[q - 1], evs[q - 1], rs[q], c, d);
    }
  }

  /** Fairness: between two successive turns of `c`, every other place that stays alive has
      exactly one turn, whatever dies in between. */
  lemma Fairness(rs: seq<Ring>, evs: seq<Event>, p: nat, q: nat, c: nat, d: nat)
    requires Run(rs, evs) && p < q < |evs|
    requires evs[p] == Sent(c) && evs[q] == Sent(c) && forall i :: p < i < q ==> evs[i] != Sent(c)
    requires d != c && d in rs[q].alive
    ensures Count(evs, p + 1, q, d) == 1
  {
    assert Next(rs[q], evs[q], rs[q + 1]);
    TurnsKept(rs, evs, p, q, c, d);
    SuccIs(rs[q].n, c);
  }

  /** How many of the events from `lo` to before `hi` sent anything to anyone. */
  ghost function Sends(evs: seq<Event>, lo: nat, hi: nat): nat
    requires lo <= hi <= |evs|
    decreases hi
  {
    if lo == hi then 0 else Sends(evs, lo, hi - 1) + if evs[hi - 1].Sent? then 1 else 0
  }

  /** Each turn given to somebody else brings the cursor nearer to a live `d`. */
  lemma {:induction false} CursorNears(rs: seq<Ring>, evs: seq<Event>, p: nat, q: nat, d: nat)
    requires Run(rs, evs) && p <= q <= |evs| && d in rs[q].alive && Count(evs, p, q, d) == 0
    ensures d < rs[p].n == rs[q].n
    ensures Sends(evs, p, q) + Dist(rs[q].n, rs[q].cursor, d) <= Dist(rs[p].n, rs[p].cursor, d)
    decreases q
  {
    AliveShrinks(rs, evs, p, q);
    if p < q {
      AliveShrinks(rs, evs, q - 1, q);
      CursorNears(rs, evs, p, q - 1, d);
      PassBy(rs[q - 1], evs[q - 1], rs[q], d);
    }
  }

  lemma PassBy(r: Ring, ev: Event, r': Ring, d: nat)
    requires WellFormed(r) && Next(r, ev, r') && WellFormed(r') && d in r.alive && ev != Sent(d)
    ensures Dist(r'.n, r'.cursor, d) + (if ev.Sent? then 1 else 0) <= Dist(r.n, r.cursor, d)
  {
    if ev.Sent? {
      SuccIs(r.n, ev.child);
    }
  }

  /** Nobody starves: of any `n` dispatches in a row at least one goes to each place alive
      throughout, whoever else dies on the way. */
  lemma NoStarvation(rs: seq<Ring>, evs: seq<Event>, p: nat, q: nat, d: nat)
    requires Run(rs, evs) && p <= q <= |evs| && d in rs[q].alive && Sends(evs, p, q) >= rs[p].n
    ensures Count(evs, p, q, d) >= 1
  {
    if Count(evs, p, q, d) == 0 {
      CursorNears(rs, evs, p, q, d);
      assert false;
    }
  }
}

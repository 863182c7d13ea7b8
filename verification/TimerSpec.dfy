/**
 What a timer container promises, independently of how it is stored.
 `T` is the identity of a timer (in the source, its address).
 */
module TimerSpec {
  import opened Lists

  /** One scheduled timer: its deadline, and whether its callback is still set. */
  datatype Entry = Entry(expire: int, live: bool)

  /** The timers that outlive a `tick` at time `cur`. */
  ghost function Unexpired<T>(m: map<T, Entry>, cur: int): map<T, Entry> {
    map t | t in m && m[t].expire > cur :: m[t]
  }

  /** `s` lists timers of `m` in non-decreasing order of their deadline. */
  ghost predicate InDeadlineOrder<T>(m: map<T, Entry>, s: seq<T>)
    requires forall t :: t in s ==> t in m
  {
    forall i, j :: 0 <= i < j < |s| ==> m[s[i]].expire <= m[s[j]].expire
  }

  /** `fired` is a legal order of callbacks for a `tick` at `cur` over `m`. */
  ghost predicate Fires<T>(m: map<T, Entry>, cur: int, fired: seq<T>) {
    && (forall t :: t in fired ==> t in m && m[t].live && m[t].expire <= cur)
    && (forall t :: t in m && m[t].live && m[t].expire <= cur ==> t in fired)
    && Distinct(fired)
    && InDeadlineOrder(m, fired)
  }

  /** Part-way through a `tick`: `rest` is still scheduled, and `ran` were called so far. */
  ghost predicate TickProgress<T>(m: map<T, Entry>, rest: map<T, Entry>, cur: int, ran: seq<T>) {
    && (forall t :: t in rest ==> t in m && rest[t] == m[t])
    && (forall t :: t in m && t !in rest ==> m[t].expire <= cur && (m[t].live ==> t in ran))
    && (forall t :: t in ran ==> t in m && t !in rest && m[t].live)
    && Distinct(ran)
    && InDeadlineOrder(m, ran)
    && (forall t, u :: t in ran && u in rest ==> m[t].expire <= m[u].expire)
  }

  lemma TickBegins<T>(m: map<T, Entry>, cur: int)
    ensures TickProgress(m, m, cur, [])
  {
  }

  /** Popping the earliest timer keeps the progress invariant. */
  lemma TickPops<T>(m: map<T, Entry>, rest: map<T, Entry>, cur: int, ran: seq<T>, top: T)
    requires TickProgress(m, rest, cur, ran)
    requires top in rest && rest[top].expire <= cur
    requires forall t :: t in rest ==> rest[top].expire <= rest[t].expire
    ensures TickProgress(m, rest - {top}, cur, ran + (if rest[top].live then [top] else []))
  {
    if rest[top].live {
      var ran' := ran + [top];
      assert forall t :: t in ran' ==> t in ran || t == top;
    }
  }

  /** Once nothing due is left, the tick has done all of its work. */
  lemma TickEnds<T>(m: map<T, Entry>, rest: map<T, Entry>, cur: int, ran: seq<T>)
    requires TickProgress(m, rest, cur, ran)
    requires forall t :: t in rest ==> rest[t].expire > cur
    ensures rest == Unexpired(m, cur) && Fires(m, cur, ran)
  {
  }

  /** What a tick does, timer by timer. */
  lemma TickInPlain<T>(m: map<T, Entry>, cur: int, rest: map<T, Entry>, ran: seq<T>)
    requires rest == Unexpired(m, cur) && Fires(m, cur, ran)
    ensures forall t :: t in rest <==> t in m && m[t].expire > cur
    ensures forall t :: t in rest ==> rest[t] == m[t]
    ensures forall t :: t in ran <==> t in m && m[t].live && m[t].expire <= cur
    ensures forall i, j :: 0 <= i < j < |ran| ==> ran[i] != ran[j] && m[ran[i]].expire <= m[ran[j]].expire
  {
  }
}

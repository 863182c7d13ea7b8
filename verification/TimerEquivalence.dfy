/**
 The min-heap and the sorted list behave alike: driven by the same calls, every tick runs
 the callbacks of the same timers, in the same order of deadlines, although the heap keeps
 deleted timers until they expire and the list unlinks them at once.
 */
module TimerEquivalence {
  import opened Lists
  import opened TimerSpec
  import opened SortedListSpec

  datatype Op<T> = Add(id: T, expire: int) | Postpone(id: T, expire: int) | Delete(id: T) | Tick(cur: int)

  /** What callers keep to: a timer is added once, and put off or deleted only while it is pending. */
  ghost predicate Legal<T>(m: map<T, Entry>, op: Op<T>) {
    match op
    case Add(t, _) => t !in m
    case Postpone(t, e) => t in m && m[t].live && e >= m[t].expire
    case Delete(t) => t in m && m[t].live
    case Tick(_) => true
  }

  /** One call on the heap. The order of equal deadlines is left open. */
  ghost predicate HeapStep<T>(m: map<T, Entry>, op: Op<T>, fired: seq<T>, m': map<T, Entry>)
    requires Legal(m, op)
  {
    match op
    case Add(t, e) => m' == m[t := Entry(e, true)] && fired == []
    case Postpone(t, e) => m' == m[t := Entry(e, m[t].live)] && fired == []
    case Delete(t) => m' == m[t := Entry(m[t].expire, false)] && fired == []
    case Tick(cur) => m' == Unexpired(m, cur) && Fires(m, cur, fired)
  }

  /** `k` is where `t` stands in the list. */
  ghost predicate StandsAt<T>(s: seq<Item<T>>, t: T, k: nat) {
    k < |s| && s[k].id == t
  }

  /** One call on the list. */
  ghost predicate ListStep<T>(s: seq<Item<T>>, op: Op<T>, fired: seq<T>, s': seq<Item<T>>) {
    match op
    case Add(t, e) => s' == Insert(s, t, e) && fired == []
    case Postpone(t, e) =>
      exists k: nat :: StandsAt(s, t, k) && s' == Insert(Without(s, k), t, e) && fired == []
    case Delete(t) => exists k: nat :: StandsAt(s, t, k) && s' == Without(s, k) && fired == []
    case Tick(cur) =>
      var p := UpTo(s, cur);
      s' == s[p..] && fired == seq(p, i requires 0 <= i < p => s[i].id)
  }

  /** The list holds exactly the timers the heap still has callbacks for. */
  ghost predicate Same<T>(m: map<T, Entry>, s: seq<Item<T>>) {
    && Sorted(s)
    && DistinctIds(s)
    && (forall i :: 0 <= i < |s| ==> s[i].id in m && m[s[i].id] == Entry(s[i].expire, true))
    && (forall t :: t in m && m[t].live ==> exists k: nat :: StandsAt(s, t, k))
  }

  /** The same callbacks, at the same deadlines one by one. */
  ghost predicate Alike<T>(m: map<T, Entry>, f: seq<T>, g: seq<T>) {
    && |f| == |g|
    && (forall t :: t in f ==> t in g)
    && (forall t :: t in g ==> t in f)
    && (forall j :: 0 <= j < |f| ==> f[j] in m && g[j] in m && m[f[j]].expire == m[g[j]].expire)
  }

  ghost function Elements<T>(s: seq<T>): (r: set<T>) {
    set t | t in s
  }

  lemma {:induction false} DistinctCount<T>(s: seq<T>)
    requires Distinct(s)
    ensures |Elements(s)| == |s|
  {
    if s != [] {
      var r, last := s[..|s| - 1], s[|s| - 1];
      DistinctCount(r);
      assert last !in r;
      assert s == r + [last];
      assert Elements(s) == Elements(r) + {last};
    }
  }

  /** Two orderings of the same timers by deadline show the same deadlines: one direction. */
  lemma NoLater<T>(m: map<T, Entry>, f: seq<T>, g: seq<T>, j: nat)
    requires Distinct(f) && Distinct(g) && j < |f| && j < |g|
    requires forall t :: t in f ==> t in m
    requires forall t :: t in g ==> t in f
    requires InDeadlineOrder(m, f) && InDeadlineOrder(m, g)
    ensures m[f[j]].expire <= m[g[j]].expire
  {
    if m[g[j]].expire < m[f[j]].expire {
      forall t | t in Elements(g[..j + 1])
        ensures t in Elements(f[..j])
      {
        var i :| 0 <= i <= j && g[i] == t;
        assert m[t].expire <= m[g[j]].expire;
        assert g[i] in g;
        var k :| 0 <= k < |f| && f[k] == t;
        assert k < j;
        assert f[..j][k] == t;
      }
      assert Elements(g[..j + 1]) <= Elements(f[..j]);
      DistinctCount(g[..j + 1]);
      DistinctCount(f[..j]);
      SubsetCount(Elements(g[..j + 1]), Elements(f[..j]));
    }
  }

  lemma SubsetCount<T>(a: set<T>, b: set<T>)
    requires a <= b
    ensures |a| <= |b|
  {
    assert b == a + (b - a);
  }

  lemma SameOrder<T>(m: map<T, Entry>, f: seq<T>, g: seq<T>)
    requires Distinct(f) && Distinct(g)
    requires forall t :: t in f ==> t in m
    requires (forall t :: t in f ==> t in g) && forall t :: t in g ==> t in f
    requires InDeadlineOrder(m, f) && InDeadlineOrder(m, g)
    ensures Alike(m, f, g)
  {
    DistinctCount(f);
    DistinctCount(g);
    assert Elements(f) == Elements(g);
    forall j | 0 <= j < |f|
      ensures m[f[j]].expire == m[g[j]].expire
    {
      NoLater(m, f, g, j);
      NoLater(m, g, f, j);
    }
  }

  /** The list fires, in order, exactly what the heap may fire. */
  lemma ListFires<T>(m: map<T, Entry>, s: seq<Item<T>>, cur: int, g: seq<T>, s': seq<Item<T>>)
    requires Same(m, s) && ListStep(s, Tick(cur), g, s')
    ensures Fires(m, cur, g)
  {
    hide UpTo;
    var p := UpTo(s, cur);
    assert forall i :: 0 <= i < p ==> g[i] == s[i].id;
    assert forall i :: p <= i < |s| ==> s[p].expire <= s[i].expire;
    forall t | t in m && m[t].live && m[t].expire <= cur
      ensures t in g
    {
      var k: nat :| StandsAt(s, t, k);
      assert g[k] == t;
    }
  }

  /** ... and keeps what the heap keeps alive. */
  lemma ListKeeps<T>(m: map<T, Entry>, s: seq<Item<T>>, cur: int, g: seq<T>, s': seq<Item<T>>)
    requires Same(m, s) && ListStep(s, Tick(cur), g, s')
    ensures Same(Unexpired(m, cur), s')
  {
    hide UpTo;
    var p := UpTo(s, cur);
    assert forall i :: 0 <= i < |s'| ==> s'[i] == s[p + i];
    assert forall i :: p <= i < |s| ==> s[p].expire <= s[i].expire;
    forall t | t in m && m[t].live && m[t].expire > cur
      ensures exists k: nat :: StandsAt(s', t, k)
    {
      var k: nat :| StandsAt(s, t, k);
      assert StandsAt(s', t, k - p);
    }
  }

  /** A tick on related containers fires alike and keeps them related. */
  lemma TickSame<T>(m: map<T, Entry>, s: seq<Item<T>>, cur: int, f: seq<T>, m': map<T, Entry>, g: seq<T>, s': seq<Item<T>>)
    requires Same(m, s)
    requires HeapStep(m, Tick(cur), f, m') && ListStep(s, Tick(cur), g, s')
    ensures Alike(m, f, g) && InDeadlineOrder(m, g) && Same(m', s')
  {
    hide Same, Alike;
    ListFires(m, s, cur, g, s');
    ListKeeps(m, s, cur, g, s');
    SameOrder(m, f, g);
  }

  /** Where everything stands after an insertion at `p`. */
  lemma InsertedItems<T>(s: seq<Item<T>>, t: T, e: int) returns (p: nat, r: seq<Item<T>>)
    requires Sorted(s)
    ensures r == Insert(s, t, e) && Sorted(r)
    ensures p <= |s| && |r| == |s| + 1
    ensures forall i {:trigger r[i]} :: 0 <= i < |r| ==> r[i] == if i < p then s[i] else if i == p then Item(t, e) else s[i - 1]
  {
    InsertSorted(s, t, e);
    p, r := UpTo(s, e), Insert(s, t, e);
    hide UpTo, Sorted;
  }

  lemma InsertSame<T>(m: map<T, Entry>, s: seq<Item<T>>, t: T, e: int)
    requires Same(m, s) && (t in m ==> !m[t].live)
    ensures Same(m[t := Entry(e, true)], Insert(s, t, e))
  {
    hide Sorted, Insert;
    var p, r := InsertedItems(s, t, e);
    assert forall i :: 0 <= i < |s| ==> s[i].id != t;
    assert StandsAt(r, t, p);
    forall u | u in m && m[u].live && u != t
      ensures exists k: nat :: StandsAt(r, u, k)
    {
      var k: nat :| StandsAt(s, u, k);
      assert StandsAt(r, u, if k < p then k else k + 1);
    }
  }

  lemma RemoveSame<T>(m: map<T, Entry>, s: seq<Item<T>>, t: T, k: nat)
    requires Same(m, s) && StandsAt(s, t, k)
    ensures t in m && Same(m[t := Entry(m[t].expire, false)], Without(s, k))
  {
    hide Sorted;
    var r := Without(s, k);
    RemoveSorted(s, k);
    assert forall i :: 0 <= i < |r| ==> r[i] == s[if i < k then i else i + 1];
    forall u | u in m && m[u].live && u != t
      ensures exists k: nat :: StandsAt(r, u, k)
    {
      var j: nat :| StandsAt(s, u, j);
      assert StandsAt(r, u, if j < k then j else j - 1);
    }
  }

  lemma StepSame<T>(m: map<T, Entry>, s: seq<Item<T>>, op: Op<T>, f: seq<T>, m': map<T, Entry>, g: seq<T>, s': seq<Item<T>>)
    requires Same(m, s) && Legal(m, op)
    requires HeapStep(m, op, f, m') && ListStep(s, op, g, s')
    ensures Alike(m, f, g) && Same(m', s')
  {
    hide Same, Alike;
    match op
    case Add(t, e) =>
      InsertSame(m, s, t, e);
      SameOrder(m, f, g);
    case Postpone(t, e) =>
      var k: nat :| StandsAt(s, t, k) && s' == Insert(Without(s, k), t, e);
      RemoveSame(m, s, t, k);
      InsertSame(m[t := Entry(m[t].expire, false)], Without(s, k), t, e);
      assert m[t := Entry(m[t].expire, false)][t := Entry(e, true)] == m';
      SameOrder(m, f, g);
    case Delete(t) =>
      var k: nat :| StandsAt(s, t, k) && s' == Without(s, k);
      RemoveSame(m, s, t, k);
      SameOrder(m, f, g);
    case Tick(cur) =>
      TickSame(m, s, cur, f, m', g, s');
  }

  /** The list can follow wherever the heap may go. */
  lemma ListFollows<T>(m: map<T, Entry>, s: seq<Item<T>>, op: Op<T>) returns (g: seq<T>, s': seq<Item<T>>)
    requires Same(m, s) && Legal(m, op)
    ensures ListStep(s, op, g, s')
  {
    g := [];
    match op
    case Add(t, e) => s' := Insert(s, t, e);
    case Postpone(t, e) =>
      var k: nat :| StandsAt(s, t, k);
      s' := Insert(Without(s, k), t, e);
    case Delete(t) =>
      var k: nat :| StandsAt(s, t, k);
      s' := Without(s, k);
    case Tick(cur) =>
      var p := UpTo(s, cur);
      g, s' := seq(p, i requires 0 <= i < p => s[i].id), s[p..];
  }

  ghost predicate HeapRun<T>(ms: seq<map<T, Entry>>, ops: seq<Op<T>>, fs: seq<seq<T>>) {
    && |ms| == |ops| + 1 && |fs| == |ops|
    && forall i :: 0 <= i < |ops| ==> Legal(ms[i], ops[i]) && HeapStep(ms[i], ops[i], fs[i], ms[i + 1])
  }

  ghost predicate ListRun<T>(ss: seq<seq<Item<T>>>, ops: seq<Op<T>>, gs: seq<seq<T>>) {
    && |ss| == |ops| + 1 && |gs| == |ops|
    && forall i :: 0 <= i < |ops| ==> ListStep(ss[i], ops[i], gs[i], ss[i + 1])
  }

  /** Main result: from empty containers, over every legal sequence of calls, each call makes
      heap and list run the same callbacks, deadline by deadline. */
  lemma {:induction false} RunsAlike<T>(ms: seq<map<T, Entry>>, ss: seq<seq<Item<T>>>, ops: seq<Op<T>>,
                                        fs: seq<seq<T>>, gs: seq<seq<T>>, n: nat)
    requires HeapRun(ms, ops, fs) && ListRun(ss, ops, gs) && ms[0] == map[] && ss[0] == []
    requires n <= |ops|
    ensures Same(ms[n], ss[n])
    ensures forall i :: 0 <= i < n ==> Alike(ms[i], fs[i], gs[i])
    ensures forall i :: 0 <= i < n ==>
      && |fs[i]| == |gs[i]| && (forall t :: t in fs[i] <==> t in gs[i])
      && (forall j :: 0 <= j < |fs[i]| ==>
            fs[i][j] in ms[i] && gs[i][j] in ms[i] && ms[i][fs[i][j]].expire == ms[i][gs[i][j]].expire)
    ensures forall i :: 0 <= i < |ss[n]| ==> ss[n][i].id in ms[n] && ms[n][ss[n][i].id] == Entry(ss[n][i].expire, true)
    ensures forall t :: t in ms[n] && ms[n][t].live ==> exists k: nat :: StandsAt(ss[n], t, k)
  {
    if n > 0 {
      RunsAlike(ms, ss, ops, fs, gs, n - 1);
      StepSame(ms[n - 1], ss[n - 1], ops[n - 1], fs[n - 1], ms[n], gs[n - 1], ss[n]);
    }
  }
}

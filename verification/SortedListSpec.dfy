/** A list of timers kept in order of their deadlines, on plain sequences. */
module SortedListSpec {
  import opened Lists

  datatype Item<T> = Item(id: T, expire: int)

  ghost predicate Sorted<T>(items: seq<Item<T>>) {
    forall i, j :: 0 <= i < j < |items| ==> items[i].expire <= items[j].expire
  }

  ghost predicate DistinctIds<T>(items: seq<Item<T>>) {
    forall i, j :: 0 <= i < j < |items| ==> items[i].id != items[j].id
  }

  /** How many leading items have a deadline of at most `e`. */
  ghost function UpTo<T>(items: seq<Item<T>>, e: int): (p: nat)
    ensures p <= |items|
    ensures forall i :: 0 <= i < p ==> items[i].expire <= e
    ensures p < |items| ==> items[p].expire > e
  {
    if items == [] || items[0].expire > e then 0
    else
      var q := UpTo(items[1..], e);
      assert forall i :: 1 <= i < q + 1 ==> items[i] == items[1..][i - 1];
      q + 1
  }

  /** Stable insertion: behind every item that is not later than `e`. */
  ghost function Insert<T>(items: seq<Item<T>>, id: T, e: int): seq<Item<T>> {
    InsertedAt(items, UpTo(items, e), Item(id, e))
  }

  /** In a sorted list the position is settled by one neighbour on each side. */
  lemma UpToIs<T>(items: seq<Item<T>>, e: int, p: nat)
    requires Sorted(items) && p <= |items|
    requires p > 0 ==> items[p - 1].expire <= e
    requires p < |items| ==> items[p].expire > e
    ensures UpTo(items, e) == p
  {
  }

  /** Nothing behind the insertion point is due earlier. */
  lemma UpToSplits<T>(items: seq<Item<T>>, e: int)
    requires Sorted(items)
    ensures forall i :: 0 <= i < UpTo(items, e) ==> items[i].expire <= e
    ensures forall i :: UpTo(items, e) <= i < |items| ==> items[i].expire > e
  {
  }

  lemma InsertSorted<T>(items: seq<Item<T>>, id: T, e: int)
    requires Sorted(items)
    ensures Sorted(Insert(items, id, e))
  {
    hide UpTo;
    var p := UpTo(items, e);
    var r := Insert(items, id, e);
    assert forall i :: 0 <= i < |r| ==> r[i] == if i < p then items[i] else if i == p then Item(id, e) else items[i - 1];
    assert forall i :: p <= i < |items| ==> items[i].expire > e;
  }

  lemma RemoveSorted<T>(items: seq<Item<T>>, k: nat)
    requires Sorted(items) && k < |items|
    ensures Sorted(Without(items, k))
  {
    var r := Without(items, k);
    assert forall i :: 0 <= i < |r| ==> r[i] == items[if i < k then i else i + 1];
  }

  /** What adjust_timer leaves behind: it only ever looks at the next item. */
  ghost function Adjusted<T>(items: seq<Item<T>>, k: nat): seq<Item<T>>
    requires k < |items|
  {
    if k + 1 == |items| || items[k].expire < items[k + 1].expire then items
    else Insert(Without(items, k), items[k].id, items[k].expire)
  }

  /** One item between its neighbours, in an otherwise sorted list. */
  lemma SortedAround<T>(items: seq<Item<T>>, k: nat)
    requires k < |items| && Sorted(Without(items, k))
    requires k > 0 ==> items[k - 1].expire <= items[k].expire
    requires k + 1 < |items| ==> items[k].expire <= items[k + 1].expire
    ensures Sorted(items)
  {
    var r := Without(items, k);
    forall i, j | 0 <= i < j < |items|
      ensures items[i].expire <= items[j].expire
    {
      var a, b := if i < k then i else i - 1, if j < k then j else j - 1;
      if i != k && j != k {
        assert r[a] == items[i] && r[b] == items[j];
      } else if i == k {
        assert r[k] == items[k + 1] && r[j - 1] == items[j];
      } else {
        assert r[k - 1] == items[k - 1] && r[i] == items[i];
      }
    }
  }

  /** Adjusting item `k`, the only one out of place, gives removal followed by stable
      insertion exactly when the item before it is not later; otherwise the list stays unsorted. */
  lemma AdjustedIsReinsertion<T>(items: seq<Item<T>>, k: nat)
    requires k < |items| && Sorted(Without(items, k))
    ensures Sorted(Adjusted(items, k)) <==> k == 0 || items[k - 1].expire <= items[k].expire
    ensures Sorted(Adjusted(items, k)) ==>
      Adjusted(items, k) == Insert(Without(items, k), items[k].id, items[k].expire)
  {
    hide UpTo;
    var r, e := Without(items, k), items[k].expire;
    if k + 1 == |items| || e < items[k + 1].expire {
      KeptInPlace(items, k);
      hide Sorted, Insert;
    } else {
      assert k > 0 ==> r[k - 1] == items[k - 1];
      assert r[k] == items[k + 1];
      InsertSorted(r, items[k].id, e);
      hide Insert;
    }
  }

  /** An item before its successor: it is in place exactly when its predecessor is not later. */
  lemma KeptInPlace<T>(items: seq<Item<T>>, k: nat)
    requires k < |items| && Sorted(Without(items, k))
    requires k + 1 == |items| || items[k].expire < items[k + 1].expire
    ensures Sorted(items) <==> k == 0 || items[k - 1].expire <= items[k].expire
    ensures Sorted(items) ==> items == Insert(Without(items, k), items[k].id, items[k].expire)
  {
    var r, e := Without(items, k), items[k].expire;
    if k == 0 || items[k - 1].expire <= e {
      SortedAround(items, k);
      assert k > 0 ==> r[k - 1] == items[k - 1];
      assert k + 1 < |items| ==> r[k] == items[k + 1];
      UpToIs(r, e, k);
      hide UpTo;
      assert Insert(r, items[k].id, e) == items;
    }
  }

  /** A later deadline puts only its own item out of place, and behind no earlier one. */
  lemma RaisedAdjusts<T>(items: seq<Item<T>>, k: nat, e: int)
    requires Sorted(items) && k < |items| && e >= items[k].expire
    ensures var now := items[k := Item(items[k].id, e)];
      Sorted(Without(now, k)) && Sorted(Adjusted(now, k)) && Adjusted(now, k) == Insert(Without(items, k), items[k].id, e)
  {
    hide UpTo, Insert, Adjusted;
    var now := items[k := Item(items[k].id, e)];
    assert Without(now, k) == Without(items, k);
    RemoveSorted(items, k);
    AdjustedIsReinsertion(now, k);
  }
}

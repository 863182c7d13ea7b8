/** Index arithmetic of a binary heap stored in an array. */
module HeapMath {

  function Parent(i: int): int {
    (i - 1) / 2
  }

  /** Every key from position `lo` on is at most its children's. */
  ghost predicate OrderedFrom(keys: seq<int>, lo: int) {
    forall i {:trigger Parent(i)} :: 1 <= i < |keys| && lo <= Parent(i) ==> keys[Parent(i)] <= keys[i]
  }

  /** Heap order from `lo` on, except that keys[hole] may exceed its children's keys;
      the parent of `hole` still precedes those children. */
  ghost predicate OrderedExceptBelow(keys: seq<int>, lo: int, hole: int) {
    && (forall i {:trigger Parent(i)} :: 1 <= i < |keys| && lo <= Parent(i) && Parent(i) != hole ==> keys[Parent(i)] <= keys[i])
    && (forall i {:trigger Parent(i)} :: 1 <= i < |keys| && Parent(i) == hole && 1 <= hole && lo <= Parent(hole) ==>
          keys[Parent(hole)] <= keys[i])
  }

  /** Heap order, except that keys[hole] may be less than the keys above it. */
  ghost predicate OrderedExceptAbove(keys: seq<int>, hole: int) {
    && (forall i {:trigger Parent(i)} :: 1 <= i < |keys| && i != hole ==> keys[Parent(i)] <= keys[i])
    && (forall i {:trigger Parent(i)} :: 1 <= i < |keys| && Parent(i) == hole && 1 <= hole ==> keys[Parent(hole)] <= keys[i])
  }

  function Swapped(keys: seq<int>, i: int, j: int): (r: seq<int>)
    requires 0 <= i < |keys| && 0 <= j < |keys|
  {
    keys[i := keys[j]][j := keys[i]]
  }

  /** One step down: the hole moves to its earlier child. */
  lemma StepDown(keys: seq<int>, lo: int, hole: int, child: int)
    requires 0 <= lo <= hole && 2 * hole + 1 <= child <= 2 * hole + 2 && child < |keys|
    requires OrderedExceptBelow(keys, lo, hole)
    requires keys[child] < keys[hole] && keys[child] <= keys[2 * hole + 1]
    requires 2 * hole + 2 < |keys| ==> keys[child] <= keys[2 * hole + 2]
    ensures OrderedExceptBelow(Swapped(keys, hole, child), lo, child)
  {
  }

  /** Where the hole stops, the order is whole again. */
  lemma StopDown(keys: seq<int>, lo: int, hole: int)
    requires 0 <= hole && OrderedExceptBelow(keys, lo, hole)
    requires 2 * hole + 1 < |keys| ==> keys[hole] <= keys[2 * hole + 1]
    requires 2 * hole + 2 < |keys| ==> keys[hole] <= keys[2 * hole + 2]
    ensures OrderedFrom(keys, lo)
  {
  }

  lemma StepUp(keys: seq<int>, hole: int)
    requires 1 <= hole < |keys|
    requires OrderedExceptAbove(keys, hole)
    requires keys[Parent(hole)] > keys[hole]
    ensures OrderedExceptAbove(Swapped(keys, hole, Parent(hole)), Parent(hole))
  {
  }

  /** A key appended at the end of a heap. */
  lemma LastAbove(keys: seq<int>, before: seq<int>)
    requires |keys| == |before| + 1 && before == keys[..|before|] && OrderedFrom(before, 0)
    ensures OrderedExceptAbove(keys, |before|)
  {
    assert forall i :: 1 <= i < |before| ==> keys[Parent(i)] == before[Parent(i)] <= before[i] == keys[i];
  }

  lemma StopUp(keys: seq<int>, hole: int)
    requires 0 <= hole < |keys| && OrderedExceptAbove(keys, hole)
    requires hole == 0 || keys[Parent(hole)] <= keys[hole]
    ensures OrderedFrom(keys, 0)
  {
  }

  /** The last key takes the place of the removed root. */
  function LastToRoot(keys: seq<int>): (r: seq<int>)
    requires |keys| >= 1
  {
    if |keys| == 1 then [] else keys[..|keys| - 1][0 := keys[|keys| - 1]]
  }

  lemma RootReplaced(keys: seq<int>)
    requires OrderedFrom(keys, 0) && |keys| >= 1
    ensures OrderedExceptBelow(LastToRoot(keys), 0, 0)
  {
  }

  /** Raising one key of a heap leaves only that key possibly above its children. */
  lemma Raised(keys: seq<int>, i: nat, e: int)
    requires OrderedFrom(keys, 0) && i < |keys| && e >= keys[i]
    ensures OrderedExceptBelow(keys[i := e], 0, i)
  {
    assert forall j :: 1 <= j < |keys| && Parent(j) == i && 1 <= i ==> keys[Parent(i)] <= keys[i] <= keys[j];
  }

  lemma {:induction false} RootLeast(keys: seq<int>, i: nat)
    requires OrderedFrom(keys, 0) && i < |keys|
    ensures keys[0] <= keys[i]
  {
    if i > 0 {
      RootLeast(keys, Parent(i));
    }
  }

  /** The number of levels below position `i` in a heap of `n` entries. */
  ghost function Height(i: nat, n: nat): nat
    decreases n - i
  {
    if 2 * i + 1 >= n then 0 else 1 + Height(2 * i + 1, n)
  }

  lemma {:induction false} HeightAntitone(i: nat, j: nat, n: nat)
    requires i <= j
    ensures Height(j, n) <= Height(i, n)
    decreases n - i
  {
    if 2 * j + 1 < n {
      HeightAntitone(2 * i + 1, 2 * j + 1, n);
    }
  }

  /** Each step down uses up one level. */
  lemma HeightDrops(i: nat, child: nat, n: nat)
    requires 2 * i + 1 <= child < n
    ensures Height(child, n) + 1 <= Height(i, n)
  {
    HeightAntitone(2 * i + 1, child, n);
  }

  /** The sum of the heights of the first `k` positions. */
  ghost function HeightSum(k: nat, n: nat): nat {
    if k == 0 then 0 else HeightSum(k - 1, n) + Height(k - 1, n)
  }

  /** The left child of `i` is as high as `i` itself in a heap of half the size. */
  lemma {:induction false} HeightHalves(i: nat, n: nat)
    ensures Height(2 * i + 1, n) == Height(i, n / 2)
    decreases n - i
  {
    if 4 * i + 3 < n {
      HeightHalves(2 * i + 1, n);
    }
  }

  lemma {:induction false} HeightSumHalves(k: nat, n: nat)
    requires k <= n / 2
    ensures HeightSum(k, n) == k + HeightSum(k, n / 2)
  {
    if k > 0 {
      HeightSumHalves(k - 1, n);
      HeightHalves(k - 1, n);
    }
  }

  /** Positions without children add nothing. */
  lemma {:induction false} HeightSumLeaves(k: nat, n: nat)
    requires n / 2 <= k
    ensures HeightSum(k, n) == HeightSum(n / 2, n)
    decreases k
  {
    if n / 2 < k {
      HeightSumLeaves(k - 1, n);
    }
  }

  /** All the heights of a non-empty heap add up to less than its size. */
  lemma {:induction false} HeightSumBound(k: nat, n: nat)
    requires n >= 1
    ensures HeightSum(k, n) < n
    decreases n
  {
    if k < n / 2 {
      HeightSumMonotone(k, n / 2, n);
    } else {
      HeightSumLeaves(k, n);
    }
    HeightSumHalves(n / 2, n);
    if n >= 2 {
      HeightSumBound(n / 2, n / 2);
    }
  }

  lemma {:induction false} HeightSumMonotone(k: nat, l: nat, n: nat)
    requires k <= l
    ensures HeightSum(k, n) <= HeightSum(l, n)
    decreases l
  {
    if k < l {
      HeightSumMonotone(k, l - 1, n);
    }
  }

  /** The second half of the positions have no children. */
  lemma NothingBelow(keys: seq<int>, k: int)
    requires |keys| / 2 <= k
    ensures OrderedFrom(keys, k)
  {
  }

  lemma OneLevelUp(keys: seq<int>, i: nat, n: nat)
    requires OrderedFrom(keys, i + 1)
    ensures OrderedExceptBelow(keys, i, i)
    ensures HeightSum(i + 1, n) == HeightSum(i, n) + Height(i, n)
  {
  }
}

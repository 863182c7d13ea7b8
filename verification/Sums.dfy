/** Sums over sequences of numbers. */
module Sums {

  ghost function Sum(s: seq<nat>): nat {
    if s == [] then 0 else s[0] + Sum(s[1..])
  }

  lemma {:induction false} SumUpdate(s: seq<nat>, i: nat, x: nat)
    requires i < |s|
    ensures Sum(s[i := x]) + s[i] == Sum(s) + x
  {
    if i == 0 {
      assert s[0 := x][1..] == s[1..];
    } else {
      assert s[i := x][1..] == s[1..][i - 1 := x];
      SumUpdate(s[1..], i - 1, x);
    }
  }

  lemma {:induction false} SumAtLeast(s: seq<nat>, i: nat)
    requires i < |s|
    ensures s[i] <= Sum(s)
  {
    if i > 0 {
      SumAtLeast(s[1..], i - 1);
    }
  }

  lemma {:induction false} SumZero(s: seq<nat>)
    requires forall i :: 0 <= i < |s| ==> s[i] == 0
    ensures Sum(s) == 0
  {
    if s != [] {
      SumZero(s[1..]);
    }
  }

  lemma {:induction false} SumSnoc(s: seq<nat>, x: nat)
    ensures Sum(s + [x]) == Sum(s) + x
  {
    if s == [] {
      assert ([] + [x])[1..] == [];
    } else {
      assert (s + [x])[1..] == s[1..] + [x];
      SumSnoc(s[1..], x);
    }
  }

  ghost function Ones(s: seq<nat>): set<nat> {
    set i: nat | i < |s| && s[i] == 1
  }

  lemma OnesSnoc(s: seq<nat>, x: nat)
    ensures |Ones(s + [x])| == |Ones(s)| + if x == 1 then 1 else 0
  {
    assert Ones(s + [x]) == Ones(s) + if x == 1 then {|s|} else {};
  }

  /** The sum of zeros and ones is the number of ones. */
  lemma {:induction false} SumCounts(s: seq<nat>)
    requires forall i :: 0 <= i < |s| ==> s[i] <= 1
    ensures Sum(s) == |Ones(s)|
    decreases |s|
  {
    if s == [] {
      assert Ones(s) == {};
    } else {
      var n, r := |s| - 1, s[..|s| - 1];
      assert s == r + [s[n]];
      SumSnoc(r, s[n]);
      SumCounts(r);
      OnesSnoc(r, s[n]);
      hide Sum, Ones;
    }
  }
}

/** Weighted sums over the threads or processes of a protocol, and how they move when one of them steps. */
module Counting {

  function Total<T>(weight: T -> nat, s: seq<T>): nat
  {
    if s == [] then 0 else weight(s[0]) + Total(weight, s[1..])
  }

  lemma {:induction false} TotalUpdate<T>(weight: T -> nat, s: seq<T>, i: nat, x: T)
    requires i < |s|
    ensures Total(weight, s[i := x]) + weight(s[i]) == Total(weight, s) + weight(x)
  {
    if i == 0 {
      assert s[i := x][1..] == s[1..];
    } else {
      assert s[i := x][1..] == s[1..][i - 1 := x];
      TotalUpdate(weight, s[1..], i - 1, x);
    }
  }

  lemma {:induction false} TotalMember<T>(weight: T -> nat, s: seq<T>, i: nat)
    requires i < |s|
    ensures weight(s[i]) <= Total(weight, s)
  {
    if i > 0 {
      TotalMember(weight, s[1..], i - 1);
    }
  }

  lemma {:induction false} TotalPair<T>(weight: T -> nat, s: seq<T>, i: nat, j: nat)
    requires i < j < |s|
    ensures weight(s[i]) + weight(s[j]) <= Total(weight, s)
  {
    if i == 0 {
      TotalMember(weight, s[1..], j - 1);
    } else {
      TotalPair(weight, s[1..], i - 1, j - 1);
    }
  }

  lemma {:induction false} TotalPositive<T>(weight: T -> nat, s: seq<T>) returns (i: nat)
    requires Total(weight, s) > 0
    ensures i < |s| && weight(s[i]) > 0
  {
    if weight(s[0]) > 0 {
      i := 0;
    } else {
      var k := TotalPositive(weight, s[1..]);
      i := k + 1;
    }
  }

  lemma {:induction false} TotalUniform<T>(weight: T -> nat, s: seq<T>, w: nat)
    requires forall x :: x in s ==> weight(x) == w
    ensures Total(weight, s) == |s| * w
  {
    if s != [] {
      assert s[0] in s;
      TotalUniform(weight, s[1..], w);
    }
  }

  lemma {:induction false} TotalBelow<T>(low: T -> nat, high: T -> nat, s: seq<T>)
    requires forall x :: x in s ==> low(x) <= high(x)
    ensures Total(low, s) <= Total(high, s)
  {
    if s != [] {
      assert s[0] in s;
      TotalBelow(low, high, s[1..]);
    }
  }

  /** A sum of weights of at most one that falls short of the length has a member of weight zero. */
  lemma {:induction false} TotalShort<T>(weight: T -> nat, s: seq<T>) returns (i: nat)
    requires forall x :: x in s ==> weight(x) <= 1
    requires Total(weight, s) < |s|
    ensures i < |s| && weight(s[i]) == 0
  {
    assert s[0] in s;
    if weight(s[0]) == 0 {
      i := 0;
    } else {
      var k := TotalShort(weight, s[1..]);
      i := k + 1;
    }
  }

  /** Weights of at most one that add up to the length are all one. */
  lemma {:induction false} TotalFull<T>(weight: T -> nat, s: seq<T>, i: nat)
    requires forall x :: x in s ==> weight(x) <= 1
    requires Total(weight, s) == |s| && i < |s|
    ensures weight(s[i]) == 1
  {
    TotalAtMost(weight, s[1..]);
    assert s[0] in s;
    if i > 0 {
      TotalFull(weight, s[1..], i - 1);
    }
  }

  lemma {:induction false} TotalAtMost<T>(weight: T -> nat, s: seq<T>)
    requires forall x :: x in s ==> weight(x) <= 1
    ensures Total(weight, s) <= |s|
  {
    if s != [] {
      assert s[0] in s;
      TotalAtMost(weight, s[1..]);
    }
  }
}

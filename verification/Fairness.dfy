/** Fair schedules of threads, and a total over all threads that runs down to zero. */
module Fairness {
  ghost predicate ScheduledFrom(who: nat -> nat, t: nat, i: nat)
  {
    exists j: nat :: i <= j && who(j) == t
  }

  /** Every thread is scheduled again and again. */
  ghost predicate Fair(who: nat -> nat, n: nat)
  {
    forall t: nat, i: nat :: t < n ==> ScheduledFrom(who, t, i)
  }

  /** The first time at or after i that t is scheduled. */
  lemma NextVisit(who: nat -> nat, n: nat, t: nat, i: nat) returns (j: nat)
    requires Fair(who, n) && t < n
    ensures i <= j && who(j) == t && forall k: nat :: i <= k < j ==> who(k) != t
  {
    assert ScheduledFrom(who, t, i);
    var bound: nat :| i <= bound && who(bound) == t;
    j := FirstVisit(who, t, i, bound);
  }

  lemma {:induction false} FirstVisit(who: nat -> nat, t: nat, i: nat, bound: nat) returns (j: nat)
    requires i <= bound && who(bound) == t
    ensures i <= j <= bound && who(j) == t && forall k: nat :: i <= k < j ==> who(k) != t
    decreases bound - i
  {
    if who(i) == t {
      j := i;
    } else {
      j := FirstVisit(who, t, i + 1, bound);
    }
  }

  function Total<T>(left: T -> nat, threads: seq<T>): (r: nat)
  {
    if threads == [] then 0 else Total(left, threads[..|threads| - 1]) + left(threads[|threads| - 1])
  }

  lemma {:induction false} TotalUpdate<T>(left: T -> nat, threads: seq<T>, t: nat, pc: T)
    requires t < |threads|
    ensures Total(left, threads[t := pc]) == Total(left, threads) - left(threads[t]) + left(pc)
  {
    var n := |threads| - 1;
    if t < n {
      TotalUpdate(left, threads[..n], t, pc);
      assert threads[t := pc][..n] == threads[..n][t := pc];
    } else {
      assert threads[t := pc][..n] == threads[..n];
    }
  }

  lemma {:induction false} NothingLeft<T>(left: T -> nat, threads: seq<T>, t: nat)
    requires Total(left, threads) == 0 && t < |threads|
    ensures left(threads[t]) == 0
  {
    if t < |threads| - 1 {
      NothingLeft(left, threads[..|threads| - 1], t);
    }
  }

  lemma {:induction false} SomethingLeft<T>(left: T -> nat, threads: seq<T>) returns (t: nat)
    requires Total(left, threads) > 0
    ensures t < |threads| && left(threads[t]) > 0
  {
    var n := |threads| - 1;
    if left(threads[n]) > 0 {
      t := n;
    } else {
      t := SomethingLeft(left, threads[..n]);
    }
  }
}

/** Waiting for a spinlock ends: when nobody new arrives and holders release, every fair run on the
    little-endian machine lets every blocked caller in. */
module SpinLiveness {
  import opened Sets
  import opened Fairness
  import opened SpinLock

  /** An infinite run: the state, the thread scheduled, and how it releases if it holds the lock, at
      every instant. */
  datatype Trace = Trace(state: nat -> System, who: nat -> nat, release: nat -> Width)

  ghost predicate StepsAt(r: Trace, n: nat, i: nat)
  {
    && |r.state(i).threads| == n && r.who(i) < n
    && r.state(i + 1) == Step(Little, r.state(i), r.who(i), Proceed(r.release(i)))
  }

  /** The run starts in a state that the lock can be in; every scheduled thread takes its next step
      and no idle one enters. */
  ghost predicate Draining(r: Trace, n: nat)
  {
    FirstByteCounts(r.state(0)) && forall i: nat :: StepsAt(r, n, i)
  }

  /** What a thread still has to do: acquire and release, release, or nothing. */
  function Left(pc: Pc): (n: nat)
  {
    match pc
    case Idle => 0
    case Holding => 1
    case _ => 2
  }

  function TotalLeft(threads: seq<Pc>): (r: nat)
  {
    Total(Left, threads)
  }

  /** The two states agree on the word and on how far every thread has come. */
  ghost predicate Alike(c: System, d: System)
  {
    && c.word == d.word && |c.threads| == |d.threads|
    && forall t: nat :: t < |c.threads| ==> Left(c.threads[t]) == Left(d.threads[t])
  }

  /** A step either brings its thread closer to the end or changes neither the word nor what any
      thread has left to do. */
  lemma StepDropsOrAlike(c: System, t: nat, release: Width)
    requires FirstByteCounts(c) && t < |c.threads|
    ensures var d := Step(Little, c, t, Proceed(release));
      || TotalLeft(d.threads) < TotalLeft(c.threads)
      || (Alike(c, d) && TotalLeft(d.threads) == TotalLeft(c.threads))
  {
    var d := Step(Little, c, t, Proceed(release));
    StepChangesOne(Little, c, t, Proceed(release));
    TotalUpdate(Left, c.threads, t, d.threads[t]);
  }

  function LeftAt(r: Trace, i: nat): (n: nat)
  {
    TotalLeft(r.state(i).threads)
  }

  lemma {:induction false} InvAt(r: Trace, n: nat, i: nat)
    requires Draining(r, n)
    ensures FirstByteCounts(r.state(i)) && |r.state(i).threads| == n
    decreases i
  {
    assert StepsAt(r, n, i);
    if i > 0 {
      InvAt(r, n, i - 1);
      assert StepsAt(r, n, i - 1);
      AnyUses(r.state(i - 1));
      StepKeepsFirstByte(Little, r.state(i - 1), r.who(i - 1), Proceed(r.release(i - 1)), {Byte, Full});
    }
  }

  lemma AnyUses(c: System)
    ensures Uses(c, {Byte, Full})
  {
    forall t: nat | t < |c.threads| && c.threads[t].Attempt? ensures c.threads[t].width in {Byte, Full} {
      match c.threads[t].width
      case Byte =>
      case Full =>
    }
  }

  /** Between i and j something drops, or everything stays alike. */
  lemma {:induction false} DropsOrAlike(r: Trace, n: nat, i: nat, j: nat) returns (k: nat)
    requires Draining(r, n) && i <= j
    ensures i <= k <= j
    ensures
      || LeftAt(r, k) < LeftAt(r, i)
      || (k == j && Alike(r.state(i), r.state(j)) && LeftAt(r, j) == LeftAt(r, i))
    decreases j
  {
    if i == j {
      k := j;
    } else {
      k := DropsOrAlike(r, n, i, j - 1);
      if LeftAt(r, k) >= LeftAt(r, i) {
        assert StepsAt(r, n, j - 1);
        InvAt(r, n, j - 1);
        StepDropsOrAlike(r.state(j - 1), r.who(j - 1), r.release(j - 1));
        k := j;
      }
    }
  }

  lemma {:induction false} StaysPut(r: Trace, n: nat, t: nat, i: nat, j: nat)
    requires Draining(r, n) && i <= j && t < n && forall k: nat :: i <= k < j ==> r.who(k) != t
    ensures |r.state(i).threads| == |r.state(j).threads| == n
    ensures r.state(j).threads[t] == r.state(i).threads[t]
    decreases j
  {
    assert StepsAt(r, n, j);
    if i < j {
      StaysPut(r, n, t, i, j - 1);
      assert StepsAt(r, n, j - 1);
      assert r.who(j - 1) != t;
      CallsEndAsAsked(Little, r.state(j - 1), r.who(j - 1), Proceed(r.release(j - 1)), t);
    }
  }

  /** A step at a free lock: only a poll does not bring its thread closer to the end, and it makes the
      thread attempt again. */
  lemma StepAtFreeLock(c: System, t: nat, release: Width)
    requires FirstByteCounts(c) && t < |c.threads| && c.threads[t] != Idle
    requires c.threads[t] == Holding || c.word == ZERO
    ensures var d := Step(Little, c, t, Proceed(release));
      if c.threads[t] == Poll then d.threads[t] == Attempt(Byte, true) && d.word == ZERO
      else TotalLeft(d.threads) < TotalLeft(c.threads)
  {
    var d := Step(Little, c, t, Proceed(release));
    StepChangesOne(Little, c, t, Proceed(release));
    TotalUpdate(Left, c.threads, t, d.threads[t]);
  }

  /** A thread that is not idle makes the total drop: a holder by releasing, and when nobody holds
      the lock any other by acquiring. */
  lemma {:induction false} Drop(r: Trace, n: nat, i: nat, t: nat) returns (k: nat)
    requires Draining(r, n) && Fair(r.who, n) && t < n == |r.state(i).threads|
    requires r.state(i).threads[t] != Idle && (r.state(i).threads[t] == Holding || r.state(i).word == ZERO)
    ensures i <= k && LeftAt(r, k) < LeftAt(r, i)
    decreases if r.state(i).threads[t] == Poll then 1 else 0
  {
    var j := NextVisit(r.who, n, t, i);
    StaysPut(r, n, t, i, j);
    k := DropsOrAlike(r, n, i, j);
    if LeftAt(r, k) >= LeftAt(r, i) {
      assert StepsAt(r, n, j) && StepsAt(r, n, j + 1);
      InvAt(r, n, j);
      StepAtFreeLock(r.state(j), t, r.release(j));
      if r.state(j).threads[t] == Poll {
        StepDropsOrAlike(r.state(j), t, r.release(j));
        k := Drop(r, n, j + 1, t);
      } else {
        k := j + 1;
      }
    }
  }

  /** Someone can always make the total drop. */
  lemma Progress(r: Trace, n: nat, i: nat) returns (k: nat)
    requires Draining(r, n) && Fair(r.who, n) && LeftAt(r, i) > 0
    ensures i <= k && LeftAt(r, k) < LeftAt(r, i)
  {
    InvAt(r, n, i);
    var c := r.state(i);
    if t: nat :| t < n && c.threads[t] == Holding {
      k := Drop(r, n, i, t);
    } else {
      assert Holders(c) == {};
      var t := SomethingLeft(Left, c.threads);
      k := Drop(r, n, i, t);
    }
  }

  /** In the end every thread is idle again. */
  lemma {:induction false} Drains(r: Trace, n: nat, i: nat) returns (k: nat)
    requires Draining(r, n) && Fair(r.who, n)
    ensures i <= k && LeftAt(r, k) == 0
    decreases LeftAt(r, i)
  {
    if LeftAt(r, i) == 0 {
      k := i;
    } else {
      k := Progress(r, n, i);
      k := Drains(r, n, k);
    }
  }

  /** A blocked caller that is no longer blocked held the lock in between. */
  lemma {:induction false} HeldInBetween(r: Trace, n: nat, t: nat, i: nat, j: nat) returns (k: nat)
    requires Draining(r, n) && t < n && i <= j && |r.state(i).threads| == |r.state(j).threads| == n
    requires Blocked(r.state(i).threads[t]) && !Blocked(r.state(j).threads[t])
    ensures i < k <= j && |r.state(k).threads| == n && r.state(k).threads[t] == Holding
    decreases j
  {
    assert StepsAt(r, n, j - 1);
    CallsEndAsAsked(Little, r.state(j - 1), r.who(j - 1), Proceed(r.release(j - 1)), t);
    if Blocked(r.state(j - 1).threads[t]) {
      k := j;
    } else {
      k := HeldInBetween(r, n, t, i, j - 1);
    }
  }

  ghost predicate GotIn(r: Trace, t: nat, k: nat)
  {
    t < |r.state(k).threads| && r.state(k).threads[t] == Holding
  }

  ghost predicate AllIdle(c: System)
  {
    forall t: nat :: t < |c.threads| ==> c.threads[t] == Idle
  }

  /** Every caller that is blocked at instant i gets the lock, and in the end the lock is free. */
  lemma EveryBlockedCallerAcquires(r: Trace, n: nat, t: nat, i: nat)
    requires Draining(r, n) && Fair(r.who, n) && t < n == |r.state(i).threads|
    requires Blocked(r.state(i).threads[t])
    ensures exists k: nat, j: nat :: i < k <= j && GotIn(r, t, k) && AllIdle(r.state(j)) && r.state(j).word == ZERO
  {
    var j := Drains(r, n, i);
    InvAt(r, n, j);
    forall u: nat | u < n ensures r.state(j).threads[u] == Idle {
      NothingLeft(Left, r.state(j).threads, u);
    }
    assert Holders(r.state(j)) == {};
    var k := HeldInBetween(r, n, t, i, j);
    assert GotIn(r, t, k) && AllIdle(r.state(j));
  }

  // ---- Why the byte order matters here too ----

  /** A free lock whose word is not zero: the last byte of a 32-bit store of 1 on a big-endian machine,
      left behind by a byte-wide clear. */
  ghost predicate Lost(c: System)
  {
    c.word == Stored(Big, 1) && Holders(c) == {}
  }

  /** unlock_spinlock loses a lock taken with compare-and-swap by its only holder. */
  lemma ClearLosesLock(c: System, t: nat)
    requires t < |c.threads| && c.word == Stored(Big, 1) && Holders(c) == {t}
    ensures Lost(Step(Big, c, t, Proceed(Byte)))
  {
    var d := Step(Big, c, t, Proceed(Byte));
    assert t in Holders(c);
    StepChangesOne(Big, c, t, Proceed(Byte));
    HoldersAfter(c, d, t);
  }

  /** A lost lock stays lost as long as nobody uses test-and-set: no 32-bit attempt takes it. */
  lemma LostForEver(c: System, t: nat, choice: Choice)
    requires Lost(c) && t < |c.threads| && c.threads[t] != Holding
    requires c.threads[t].Attempt? ==> c.threads[t].width == Full
    ensures Lost(Step(Big, c, t, choice))
  {
    StepChangesOne(Big, c, t, choice);
    HoldersAfter(c, Step(Big, c, t, choice), t);
  }
}

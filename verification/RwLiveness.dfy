/** Waiting for the readers-writer lock ends: when nobody new arrives, holders release and
    compare-and-swap fails for no reason only finitely often, every fair run lets every waiter in. */
module RwLiveness {
  import opened Int32
  import opened RwLock
  import opened Fairness

  /** An infinite run: the state, the thread scheduled, and whether its compare-and-swap is made to
      fail, at every instant. */
  datatype Trace = Trace(state: nat -> System, who: nat -> nat, spurious: nat -> bool)

  /** The run starts in a state that the lock can be in; every scheduled thread takes its next step
      and no idle one enters. */
  ghost predicate Draining(r: Trace, n: nat)
  {
    && n <= INT_MAX && |r.state(0).threads| == n && Inv(r.state(0))
    && (forall i: nat :: r.who(i) < n)
    && forall i: nat :: |r.state(i).threads| == n && r.state(i + 1) == Step(r.state(i), r.who(i), Go(r.spurious(i)))
  }

  /** From instant m on no compare-and-swap fails spuriously. */
  ghost predicate SpuriousOnlyBefore(r: Trace, m: nat)
  {
    forall i: nat :: m <= i ==> !r.spurious(i)
  }

  predicate Waiting(pc: Pc) { pc.ReadLoad? || pc.ReadCas? || pc.WriteCas? }
  predicate Holding(pc: Pc) { pc.Reading? || pc.Writing? }

  /** What a thread still has to do: acquire and release, release, or nothing. */
  function Left(pc: Pc): (r: nat)
  {
    if Waiting(pc) then 2 else if Holding(pc) then 1 else 0
  }

  function TotalLeft(threads: seq<Pc>): (r: nat)
  {
    Total(Left, threads)
  }

  /** The two states agree on the word and on how far every thread has come. */
  ghost predicate Alike(c: System, d: System)
  {
    && c.state == d.state && |c.threads| == |d.threads|
    && forall t: nat :: t < |c.threads| ==> Left(c.threads[t]) == Left(d.threads[t])
  }

  /** A step either brings its thread closer to the end or changes neither the word nor what any
      thread has left to do. */
  lemma StepDropsOrAlike(c: System, t: nat, spurious: bool)
    requires t < |c.threads|
    ensures var d := Step(c, t, Go(spurious));
      if EventOf(c, t, Go(spurious)) == Stutter then Alike(c, d) && TotalLeft(d.threads) == TotalLeft(c.threads)
      else TotalLeft(d.threads) < TotalLeft(c.threads)
  {
    var d := Step(c, t, Go(spurious));
    StepChangesOne(c, t, Go(spurious));
    TotalUpdate(Left, c.threads, t, d.threads[t]);
  }

  function LeftAt(r: Trace, i: nat): (n: nat)
  {
    TotalLeft(r.state(i).threads)
  }

  lemma {:induction false} InvAt(r: Trace, n: nat, i: nat)
    requires Draining(r, n)
    ensures Inv(r.state(i))
    decreases i
  {
    if i > 0 {
      InvAt(r, n, i - 1);
      assert r.state(i - 1 + 1) == Step(r.state(i - 1), r.who(i - 1), Go(r.spurious(i - 1)));
      StepKeepsInv(r.state(i - 1), r.who(i - 1), Go(r.spurious(i - 1)));
    }
  }

  /** Between i and j something drops, or everything stays alike and a thread that is not scheduled
      stays where it is. */
  lemma {:induction false} DropsOrAlike(r: Trace, n: nat, i: nat, j: nat) returns (k: nat)
    requires Draining(r, n) && i <= j
    ensures i <= k <= j
    ensures
      || LeftAt(r, k) < LeftAt(r, i)
      || (k == j && Alike(r.state(i), r.state(j)) && LeftAt(r, j) == LeftAt(r, i))
    decreases j
  {
    if i == j {
      k := j;
    } else {
      k := DropsOrAlike(r, n, i, j - 1);
      if LeftAt(r, k) >= LeftAt(r, i) {
        assert r.state(j - 1 + 1) == Step(r.state(j - 1), r.who(j - 1), Go(r.spurious(j - 1)));
        StepDropsOrAlike(r.state(j - 1), r.who(j - 1), r.spurious(j - 1));
        k := j;
      }
    }
  }

  lemma {:induction false} StaysPut(r: Trace, n: nat, t: nat, i: nat, j: nat)
    requires Draining(r, n) && i <= j && t < n && forall k: nat :: i <= k < j ==> r.who(k) != t
    ensures |r.state(i).threads| == |r.state(j).threads| == n
    ensures r.state(j).threads[t] == r.state(i).threads[t]
    decreases j
  {
    if i < j {
      StaysPut(r, n, t, i, j - 1);
      assert r.state(j - 1 + 1) == Step(r.state(j - 1), r.who(j - 1), Go(r.spurious(j - 1)));
      assert r.who(j - 1) != t;
    }
  }

  /** How many visits a waiter needs when the lock is free: a reader with an old value has to fail
      and load again. */
  function Visits(pc: Pc): (r: nat)
  {
    match pc
    case ReadCas(s) => if s == 0 then 1 else 3
    case ReadLoad => 2
    case _ => 1
  }

  /** A thread that is not idle makes the total drop: a holder by releasing, and when nobody holds
      the lock a waiter by acquiring. */
  lemma {:induction false} Drop(r: Trace, n: nat, m: nat, i: nat, t: nat) returns (k: nat)
    requires Draining(r, n) && Fair(r.who, n) && SpuriousOnlyBefore(r, m) && m <= i && t < n == |r.state(i).threads|
    requires Holding(r.state(i).threads[t]) || (Waiting(r.state(i).threads[t]) && r.state(i).state == 0)
    ensures i <= k && LeftAt(r, k) < LeftAt(r, i)
    decreases Visits(r.state(i).threads[t])
  {
    var j := NextVisit(r.who, n, t, i);
    StaysPut(r, n, t, i, j);
    k := DropsOrAlike(r, n, i, j);
    if LeftAt(r, k) >= LeftAt(r, i) {
      var c, d := r.state(j), r.state(j + 1);
      assert d == Step(c, r.who(j), Go(r.spurious(j))) && !r.spurious(j);
      StepDropsOrAlike(c, t, false);
      if EventOf(c, t, Go(false)) == Stutter {
        StutterAtFreeLock(c, t);
        k := Drop(r, n, m, j + 1, t);
      } else {
        k := j + 1;
      }
    }
  }

  /** At a free lock a waiter that does not get in is one visit closer. */
  lemma StutterAtFreeLock(c: System, t: nat)
    requires t < |c.threads| && EventOf(c, t, Go(false)) == Stutter && Waiting(c.threads[t]) && c.state == 0
    ensures var d := Step(c, t, Go(false));
      Waiting(d.threads[t]) && d.state == 0 && Visits(d.threads[t]) < Visits(c.threads[t])
  {
  }

  /** Someone can always make the total drop. */
  lemma Progress(r: Trace, n: nat, m: nat, i: nat) returns (k: nat)
    requires Draining(r, n) && Fair(r.who, n) && SpuriousOnlyBefore(r, m) && m <= i && LeftAt(r, i) > 0
    ensures i <= k && LeftAt(r, k) < LeftAt(r, i)
  {
    var c := r.state(i);
    assert |c.threads| == n by { assert r.state(i + 1) == Step(r.state(i), r.who(i), Go(r.spurious(i))); }
    InvAt(r, n, i);
    if t: nat :| t < n && Holding(c.threads[t]) {
      k := Drop(r, n, m, i, t);
    } else {
      assert Abstract(c) == Lock({}, {});
      var t := SomethingLeft(Left, c.threads);
      k := Drop(r, n, m, i, t);
    }
  }

  /** In the end every thread is idle again. */
  lemma {:induction false} Drains(r: Trace, n: nat, m: nat, i: nat) returns (k: nat)
    requires Draining(r, n) && Fair(r.who, n) && SpuriousOnlyBefore(r, m) && m <= i
    ensures i <= k && LeftAt(r, k) == 0
    decreases LeftAt(r, i)
  {
    if LeftAt(r, i) == 0 {
      k := i;
    } else {
      k := Progress(r, n, m, i);
      k := Drains(r, n, m, k);
    }
  }

  /** A waiter that has become idle held the lock in between. */
  lemma {:induction false} HeldInBetween(r: Trace, n: nat, t: nat, i: nat, j: nat) returns (k: nat)
    requires Draining(r, n) && t < n && i <= j && |r.state(i).threads| == |r.state(j).threads| == n
    requires Waiting(r.state(i).threads[t]) && !Waiting(r.state(j).threads[t])
    ensures i < k <= j && |r.state(k).threads| == n && Holding(r.state(k).threads[t])
    decreases j
  {
    assert r.state(j - 1 + 1) == Step(r.state(j - 1), r.who(j - 1), Go(r.spurious(j - 1)));
    if Waiting(r.state(j - 1).threads[t]) {
      k := j;
    } else {
      k := HeldInBetween(r, n, t, i, j - 1);
    }
  }

  /** Every thread that waits at instant i gets the lock, and later is done with it. */
  lemma EveryWaiterAcquires(r: Trace, n: nat, m: nat, t: nat, i: nat)
    requires Draining(r, n) && Fair(r.who, n) && SpuriousOnlyBefore(r, m) && t < n == |r.state(i).threads|
    requires Waiting(r.state(i).threads[t])
    ensures exists k: nat, j: nat :: i < k <= j && GotIn(r, t, k) && AllIdle(r.state(j))
  {
    var j := Drains(r, n, m, if m <= i then i else m);
    assert |r.state(j).threads| == n by { assert r.state(j + 1) == Step(r.state(j), r.who(j), Go(r.spurious(j))); }
    forall u: nat | u < n ensures r.state(j).threads[u] == Idle {
      NothingLeft(Left, r.state(j).threads, u);
    }
    var k := HeldInBetween(r, n, t, i, j);
    assert GotIn(r, t, k) && AllIdle(r.state(j));
  }

  ghost predicate GotIn(r: Trace, t: nat, k: nat)
  {
    t < |r.state(k).threads| && Holding(r.state(k).threads[t])
  }

  ghost predicate AllIdle(c: System)
  {
    forall t: nat :: t < |c.threads| ==> c.threads[t] == Idle
  }

  // ---- Why nobody new may arrive ----

  /** Two readers that take turns so that one of them always holds the lock, and a writer. */
  function Relay(phase: nat): (r: System)
  {
    match phase
    case 0 => System(1, [Reading, Idle, WriteCas])
    case 1 => System(1, [Reading, ReadLoad, WriteCas])
    case 2 => System(1, [Reading, ReadCas(1), WriteCas])
    case 3 => System(2, [Reading, Reading, WriteCas])
    case 4 => System(1, [Idle, Reading, WriteCas])
    case 5 => System(1, [Idle, Reading, WriteCas])
    case 6 => System(1, [ReadLoad, Reading, WriteCas])
    case 7 => System(1, [ReadCas(1), Reading, WriteCas])
    case _ => System(2, [Reading, Reading, WriteCas])
  }

  function RelayMove(phase: nat): (r: Move)
  {
    match phase
    case 0 => Move(1, EnterRead)
    case 1 => Move(1, Go(false))
    case 2 => Move(1, Go(false))
    case 3 => Move(0, Go(false))
    case 4 => Move(2, Go(false))
    case 5 => Move(0, EnterRead)
    case 6 => Move(0, Go(false))
    case 7 => Move(0, Go(false))
    case _ => Move(1, Go(false))
  }

  lemma RelayStep(p: nat)
    requires p < 9
    ensures |Relay(p).threads| == 3 && RelayMove(p).t < 3 && Relay(p).threads[2] == WriteCas
    ensures Relay((p + 1) % 9) == Step(Relay(p), RelayMove(p).t, RelayMove(p).choice)
  {
    FitsInt32(0);
    FitsInt32(1);
    FitsInt32(2);
  }

  function RelayTrace(): (r: Trace)
  {
    Trace(i => Relay(i % 9), i => RelayMove(i % 9).t, i => false)
  }

  /** Thread r.who(i) takes some step at instant i; an idle thread may enter. */
  ghost predicate Steps(r: Trace, n: nat, i: nat)
  {
    && |r.state(i).threads| == n && r.who(i) < n
    && exists choice :: choice != Go(true) && r.state(i + 1) == Step(r.state(i), r.who(i), choice)
  }

  /** As `Draining`, but idle threads may enter. */
  ghost predicate Running(r: Trace, n: nat)
  {
    |r.state(0).threads| == n && Inv(r.state(0)) && forall i: nat :: Steps(r, n, i)
  }

  ghost predicate WaitsToWrite(r: Trace, t: nat, i: nat)
  {
    t < |r.state(i).threads| && r.state(i).threads[t] == WriteCas
  }

  lemma RelayIsFair(t: nat, i: nat)
    requires t < 3
    ensures ScheduledFrom(RelayTrace().who, t, i)
  {
    var r, j := RelayTrace(), 9 * i;
    assert r.who(j + 3) == 0 && r.who(j + 1) == 1 && r.who(j + 4) == 2;
  }

  lemma RelaySteps(i: nat)
    ensures Steps(RelayTrace(), 3, i) && WaitsToWrite(RelayTrace(), 2, i)
  {
    RelayStep(i % 9);
    assert (i + 1) % 9 == (i % 9 + 1) % 9;
    assert RelayMove(i % 9).choice != Go(true);
  }

  lemma RelayStarts()
    ensures |RelayTrace().state(0).threads| == 3 && Inv(RelayTrace().state(0))
    ensures SpuriousOnlyBefore(RelayTrace(), 0)
  {
    var c := Relay(0);
    assert Standing(c, Reading) == {0} && Standing(c, Writing) == {};
  }

  /** With readers that keep arriving, a fair run without spurious failures can keep a writer
      waiting for ever. */
  lemma WriterCanStarve() returns (r: Trace)
    ensures Running(r, 3) && Fair(r.who, 3) && SpuriousOnlyBefore(r, 0)
    ensures forall i: nat :: WaitsToWrite(r, 2, i)
  {
    r := RelayTrace();
    RelayStarts();
    forall i: nat ensures Steps(r, 3, i) && WaitsToWrite(r, 2, i) {
      RelaySteps(i);
    }
    forall t: nat, i: nat | t < 3 ensures ScheduledFrom(r.who, t, i) {
      RelayIsFair(t, i);
    }
  }
}

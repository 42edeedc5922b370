/** The readers-writer lock (include/rwlock.h), one atomic operation per step, for any number of
    threads in any interleaving.  The weak compare-and-swap may fail for no reason. */
module RwLock {
  import opened Int32
  import opened Sets

  /** Where a thread stands: outside; about to load; about to compare-and-swap from s; holding the
      lock for reading; about to compare-and-swap from 0; holding the lock for writing. */
  datatype Pc = Idle | ReadLoad | ReadCas(s: int) | Reading | WriteCas | Writing

  datatype System = System(state: int, threads: seq<Pc>)

  /** What a scheduled thread does: an idle one calls rwlock_read_lock or rwlock_write_lock, or
      does nothing; any other takes its next atomic step, whose compare-and-swap may be told to
      fail. */
  datatype Choice = EnterRead | EnterWrite | Go(spurious: bool)

  function With(c: System, t: nat, state: int, pc: Pc): (r: System)
    requires t < |c.threads|
  {
    System(state, c.threads[t := pc])
  }

  /** One step of thread t. */
  function Step(c: System, t: nat, choice: Choice): (c': System)
    requires t < |c.threads|
    ensures |c'.threads| == |c.threads|
  {
    match c.threads[t]
    case Idle =>
      if choice == EnterRead then With(c, t, c.state, ReadLoad)
      else if choice == EnterWrite then With(c, t, c.state, WriteCas)
      else c
    case ReadLoad => if c.state >= 0 then With(c, t, c.state, ReadCas(c.state)) else c
    case ReadCas(s) =>
      if c.state == s && choice != Go(true) then With(c, t, Wrap32(s + 1), Reading)
      else With(c, t, c.state, ReadLoad)
    case Reading => With(c, t, Wrap32(c.state - 1), Idle)
    case WriteCas => if c.state == 0 && choice != Go(true) then With(c, t, -1, Writing) else c
    case Writing => With(c, t, 0, Idle)
  }

  function Init(n: nat): (r: System)
  {
    System(0, seq(n, t => Idle))
  }

  datatype Move = Move(t: nat, choice: Choice)

  predicate Scheduled(moves: seq<Move>, n: nat)
  {
    forall i: nat :: i < |moves| ==> moves[i].t < n
  }

  /** The state after a schedule of steps. */
  function Run(c: System, moves: seq<Move>): (c': System)
    requires Scheduled(moves, |c.threads|)
    ensures |c'.threads| == |c.threads|
  {
    if moves == [] then c
    else
      var last := moves[|moves| - 1];
      Step(Run(c, moves[..|moves| - 1]), last.t, last.choice)
  }

  // ---- The abstract lock ----

  /** Who holds the lock, and how. */
  datatype Lock = Lock(readers: set<nat>, writers: set<nat>)

  datatype Event = Stutter | AcquireRead | ReleaseRead | AcquireWrite | ReleaseWrite

  /** When an abstract readers-writer lock allows the event to thread t. */
  predicate Allowed(a: Lock, e: Event, t: nat)
  {
    match e
    case Stutter => true
    case AcquireRead => a.writers == {} && t !in a.readers
    case ReleaseRead => a.writers == {} && t in a.readers
    case AcquireWrite => a.writers == {} && a.readers == {}
    case ReleaseWrite => a.writers == {t} && a.readers == {}
  }

  function After(a: Lock, e: Event, t: nat): (r: Lock)
  {
    match e
    case Stutter => a
    case AcquireRead => a.(readers := a.readers + {t})
    case ReleaseRead => a.(readers := a.readers - {t})
    case AcquireWrite => a.(writers := a.writers + {t})
    case ReleaseWrite => a.(writers := a.writers - {t})
  }

  /** What the counter should show. */
  function Shown(a: Lock): (r: int)
  {
    if a.writers == {} then |a.readers| else -1
  }

  /** A writer excludes everyone. */
  predicate Exclusive(a: Lock)
  {
    |a.writers| <= 1 && (a.writers != {} ==> a.readers == {})
  }

  /** The abstract lock keeps writers alone. */
  lemma AllowedKeepsExclusive(a: Lock, e: Event, t: nat)
    requires Exclusive(a) && Allowed(a, e, t)
    ensures Exclusive(After(a, e, t))
  {
  }

  // ---- The program as an abstract lock ----

  ghost function Standing(c: System, pc: Pc): (r: set<nat>)
  {
    set t: nat | t < |c.threads| && c.threads[t] == pc
  }

  ghost function Abstract(c: System): (r: Lock)
  {
    Lock(Standing(c, Reading), Standing(c, Writing))
  }

  /** The event that a step performs: a compare-and-swap counts when it succeeds. */
  function EventOf(c: System, t: nat, choice: Choice): (r: Event)
    requires t < |c.threads|
  {
    match c.threads[t]
    case ReadCas(s) => if c.state == s && choice != Go(true) then AcquireRead else Stutter
    case WriteCas => if c.state == 0 && choice != Go(true) then AcquireWrite else Stutter
    case Reading => ReleaseRead
    case Writing => ReleaseWrite
    case _ => Stutter
  }

  /** What every reachable state satisfies: a writer is alone, the counter shows the holders, and
      no thread is about to swap from a negative value. */
  ghost predicate Inv(c: System)
  {
    && Exclusive(Abstract(c)) && c.state == Shown(Abstract(c))
    && forall t: nat :: t < |c.threads| && c.threads[t].ReadCas? ==> c.threads[t].s >= 0
  }

  lemma StandingAfter(c: System, c': System, t: nat, q: Pc)
    requires t < |c.threads| == |c'.threads| && c'.threads == c.threads[t := c'.threads[t]]
    ensures Standing(c', q) == if c'.threads[t] == q then Standing(c, q) + {t} else Standing(c, q) - {t}
  {
  }

  lemma StepChangesOne(c: System, t: nat, choice: Choice)
    requires t < |c.threads|
    ensures var c' := Step(c, t, choice); c'.threads == c.threads[t := c'.threads[t]]
  {
  }

  /** Every step is the step of the abstract lock that its event names. */
  lemma StepIsEvent(c: System, t: nat, choice: Choice)
    requires t < |c.threads|
    ensures Abstract(Step(c, t, choice)) == After(Abstract(c), EventOf(c, t, choice), t)
  {
    var c' := Step(c, t, choice);
    StepChangesOne(c, t, choice);
    StandingAfter(c, c', t, Reading);
    StandingAfter(c, c', t, Writing);
    assert t in Standing(c, c.threads[t]);
    assert t in Standing(c, Reading) ==> c.threads[t] == Reading;
    assert t in Standing(c, Writing) ==> c.threads[t] == Writing;
  }

  /** The abstract lock allows every event that the program performs.  A reader swaps from the
      value it loaded earlier, which may have been left and reached again since; a success means
      that there is no writer now. */
  lemma EventAllowed(c: System, t: nat, choice: Choice)
    requires Inv(c) && t < |c.threads|
    ensures Allowed(Abstract(c), EventOf(c, t, choice), t)
  {
    assert t in Standing(c, c.threads[t]);
    if c.threads[t] == Writing {
      OnlyElement(Standing(c, Writing), t);
    }
    assert c.state == 0 && Standing(c, Writing) == {} ==> Standing(c, Reading) == {};
  }

  /** What an event does to the number that should be shown. */
  lemma ShownAfter(a: Lock, e: Event, t: nat)
    requires Allowed(a, e, t)
    ensures Shown(After(a, e, t)) == match e
      case Stutter => Shown(a)
      case AcquireRead => Shown(a) + 1
      case ReleaseRead => Shown(a) - 1
      case AcquireWrite => -1
      case ReleaseWrite => 0
    ensures e == AcquireRead || e == ReleaseRead ==> 0 <= Shown(a) && 0 <= Shown(After(a, e, t))
    ensures Shown(After(a, e, t)) <= |After(a, e, t).readers|
  {
    OneMoreOrLess(a.readers, t);
  }

  /** The counter follows the events. */
  lemma CounterFollows(c: System, t: nat, choice: Choice)
    requires t < |c.threads| && c.state == Shown(Abstract(c))
    requires Allowed(Abstract(c), EventOf(c, t, choice), t)
    requires |After(Abstract(c), EventOf(c, t, choice), t).readers| <= INT_MAX
    ensures Step(c, t, choice).state == Shown(After(Abstract(c), EventOf(c, t, choice), t))
  {
    ShownAfter(Abstract(c), EventOf(c, t, choice), t);
    FitsInt32(c.state + 1);
    FitsInt32(c.state - 1);
  }

  lemma StepKeepsInv(c: System, t: nat, choice: Choice)
    requires Inv(c) && t < |c.threads| <= INT_MAX
    ensures Inv(Step(c, t, choice))
  {
    var c', e := Step(c, t, choice), EventOf(c, t, choice);
    StepIsEvent(c, t, choice);
    EventAllowed(c, t, choice);
    AllowedKeepsExclusive(Abstract(c), e, t);
    SubsetSize(Standing(c', Reading), |c.threads|);
    CounterFollows(c, t, choice);
    LoadedValues(c, t, choice);
  }

  lemma LoadedValues(c: System, t: nat, choice: Choice)
    requires t < |c.threads|
    requires forall u: nat :: u < |c.threads| && c.threads[u].ReadCas? ==> c.threads[u].s >= 0
    ensures var c' := Step(c, t, choice);
      forall u: nat :: u < |c'.threads| && c'.threads[u].ReadCas? ==> c'.threads[u].s >= 0
  {
  }

  lemma InitInv(n: nat)
    ensures Inv(Init(n))
  {
    assert Abstract(Init(n)) == Lock({}, {});
  }

  lemma {:induction false} RunKeepsInv(c: System, moves: seq<Move>)
    requires Inv(c) && |c.threads| <= INT_MAX
    requires Scheduled(moves, |c.threads|)
    ensures Inv(Run(c, moves))
  {
    if moves != [] {
      RunKeepsInv(c, moves[..|moves| - 1]);
      var last := moves[|moves| - 1];
      StepKeepsInv(Run(c, moves[..|moves| - 1]), last.t, last.choice);
    }
  }

  /** In every run of every number of threads that an int32_t can count, `state` is -1 exactly when
      one writer and no reader holds the lock, and otherwise it is the number of readers. */
  lemma StateTellsHolders(n: nat, moves: seq<Move>)
    requires n <= INT_MAX && Scheduled(moves, n)
    ensures var c := Run(Init(n), moves); var a := Abstract(c);
      && (c.state == -1 <==> |a.writers| == 1 && a.readers == {})
      && (c.state != -1 ==> c.state == |a.readers| && a.writers == {})
  {
    InitInv(n);
    RunKeepsInv(Init(n), moves);
    var a := Abstract(Run(Init(n), moves));
    assert |a.writers| == 0 ==> a.writers == {};
  }

  /** The store of 0 in rwlock_write_unlock never erases a reader: nobody else holds the lock then,
      and the count it leaves is the true one. */
  lemma WriteUnlockErasesNobody(n: nat, moves: seq<Move>, t: nat, choice: Choice)
    requires n <= INT_MAX && Scheduled(moves, n) && t < n
    requires Run(Init(n), moves).threads[t] == Writing
    ensures Abstract(Run(Init(n), moves)) == Lock({}, {t})
    ensures Abstract(Step(Run(Init(n), moves), t, choice)) == Lock({}, {})
  {
    InitInv(n);
    RunKeepsInv(Init(n), moves);
    EventAllowed(Run(Init(n), moves), t, choice);
    StepIsEvent(Run(Init(n), moves), t, choice);
  }

  /** The abstract lock after the events of a run. */
  function AbstractRun(c: System, moves: seq<Move>): (a: Lock)
    requires Scheduled(moves, |c.threads|)
  {
    if moves == [] then Lock({}, {})
    else
      var last, before := moves[|moves| - 1], moves[..|moves| - 1];
      After(AbstractRun(c, before), EventOf(Run(c, before), last.t, last.choice), last.t)
  }

  /** Every run is a run of the abstract lock: the holders after the run are those that the events
      of its steps produce, and the abstract lock allows each of them. */
  lemma {:induction false} RunRefinesAbstractLock(n: nat, moves: seq<Move>)
    requires n <= INT_MAX && Scheduled(moves, n)
    ensures Abstract(Run(Init(n), moves)) == AbstractRun(Init(n), moves)
    ensures moves != [] ==>
      var last, before := moves[|moves| - 1], moves[..|moves| - 1];
      Allowed(AbstractRun(Init(n), before), EventOf(Run(Init(n), before), last.t, last.choice), last.t)
  {
    InitInv(n);
    if moves == [] {
      assert Abstract(Init(n)) == Lock({}, {});
    } else {
      var last, before := moves[|moves| - 1], moves[..|moves| - 1];
      RunRefinesAbstractLock(n, before);
      RunKeepsInv(Init(n), before);
      StepIsEvent(Run(Init(n), before), last.t, last.choice);
      EventAllowed(Run(Init(n), before), last.t, last.choice);
    }
  }

  // ---- How a call ends ----

  /** The thread is in rwlock_read_lock or holds what it returned. */
  predicate ForReading(pc: Pc) { pc.ReadLoad? || pc.ReadCas? || pc.Reading? }

  /** The thread is in rwlock_write_lock or holds what it returned. */
  predicate ForWriting(pc: Pc) { pc.WriteCas? || pc.Writing? }

  /** A call of rwlock_read_lock ends only by holding the lock for reading, one of rwlock_write_lock
      only by holding it for writing, a holder leaves only by releasing, no step moves another thread,
      and a compare-and-swap that is made to fail acquires nothing. */
  lemma CallsEndAsAsked(c: System, t: nat, choice: Choice, u: nat)
    requires t < |c.threads| && u < |c.threads|
    ensures var was, pc := c.threads[t], Step(c, t, choice).threads[t];
      && (was == Idle && choice == EnterRead ==> pc == ReadLoad)
      && (was == Idle && choice == EnterWrite ==> pc == WriteCas)
      && (was == Idle && choice.Go? ==> pc == Idle)
      && (ForReading(was) && was != Reading ==> ForReading(pc))
      && (ForWriting(was) && was != Writing ==> ForWriting(pc))
      && (was == Reading || was == Writing ==> pc == Idle)
      && (choice == Go(true) ==> pc != Reading && pc != Writing)
    ensures u != t ==> Step(c, t, choice).threads[u] == c.threads[u]
  {
  }

  // ---- More threads than an int32_t can count ----

  /** The moves that take thread t from outside to reading. */
  function ReadOnce(t: nat): (r: seq<Move>)
  {
    [Move(t, EnterRead), Move(t, Go(false)), Move(t, Go(false))]
  }

  function ReadAll(k: nat): (moves: seq<Move>)
    ensures Scheduled(moves, k)
  {
    if k == 0 then [] else ReadAll(k - 1) + ReadOnce(k - 1)
  }

  function FirstReading(n: nat, k: nat): (r: seq<Pc>)
  {
    seq(n, t => if t < k then Reading else Idle)
  }

  lemma {:induction false} RunAppend(c: System, a: seq<Move>, b: seq<Move>)
    requires Scheduled(a, |c.threads|) && Scheduled(b, |c.threads|)
    ensures Scheduled(a + b, |c.threads|) && Run(c, a + b) == Run(Run(c, a), b)
    decreases |b|
  {
    if b == [] {
      assert a + b == a;
    } else {
      var b0 := b[..|b| - 1];
      RunAppend(c, a, b0);
      assert (a + b)[..|a + b| - 1] == a + b0;
    }
  }

  lemma OneMoreReader(n: nat, k: nat)
    requires k < n && k <= INT_MAX
    ensures Run(System(k, FirstReading(n, k)), ReadOnce(k)) == System(Wrap32(k + 1), FirstReading(n, k + 1))
  {
    var c := System(k, FirstReading(n, k));
    var m := ReadOnce(k);
    var c1 := With(c, k, k, ReadLoad);
    var c2 := With(c, k, k, ReadCas(k));
    assert m[..2][..1][..0] == [] && m[..2][..1] == [m[0]] && m[..2] == [m[0], m[1]];
    assert Run(c, m[..2][..1]) == c1;
    assert Run(c, m[..2]) == c2;
    assert FirstReading(n, k + 1) == c.threads[k := Reading];
  }

  lemma {:induction false} ReadersPileUp(n: nat, k: nat)
    requires k <= n && k <= INT_MAX
    ensures Run(Init(n), ReadAll(k)) == System(k, FirstReading(n, k))
    decreases k
  {
    if k == 0 {
      assert Init(n).threads == FirstReading(n, 0);
    } else {
      ReadersPileUp(n, k - 1);
      RunAppend(Init(n), ReadAll(k - 1), ReadOnce(k - 1));
      OneMoreReader(n, k - 1);
      FitsInt32(k);
    }
  }

  ghost predicate SafeInEveryRun(n: nat)
  {
    forall moves :: Scheduled(moves, n) ==> Inv(Run(Init(n), moves))
  }

  /** The bound on the number of threads is exact: one more, and a run of readers alone makes the
      counter wrap around. */
  lemma SafeIffThreadsFit(n: nat)
    ensures SafeInEveryRun(n) <==> n <= INT_MAX
  {
    if n <= INT_MAX {
      forall moves | Scheduled(moves, n) ensures Inv(Run(Init(n), moves)) {
        InitInv(n);
        RunKeepsInv(Init(n), moves);
      }
    } else {
      var full: nat := INT_MAX;
      ReadersPileUp(n, full);
      RunAppend(Init(n), ReadAll(full), ReadOnce(full));
      OneMoreReader(n, full);
      assert Scheduled(ReadAll(full) + ReadOnce(full), n);
      Wrapped(n, full);
    }
  }

  lemma Wrapped(n: nat, full: nat)
    requires full == INT_MAX
    ensures !Inv(System(Wrap32(full + 1), FirstReading(n, full + 1)))
  {
  }

  // ---- The lock in memory ----

  /** The shared word and the program counters, changed in place one atomic operation at a time. */
  class Machine {
    var state: int
    var threads: seq<Pc>

    ghost function Snapshot(): (r: System)
      reads this
    {
      System(state, threads)
    }

    ghost predicate Valid()
      reads this
    {
      |threads| <= INT_MAX && Inv(Snapshot())
    }

    /** `init_rwlock`. */
    constructor (n: nat)
      requires n <= INT_MAX
      ensures Valid() && Snapshot() == Init(n)
    {
      InitInv(n);
      state := 0;
      threads := seq(n, t => Idle);
    }

    /** A weak compare-and-swap of the shared word. */
    method CompareExchange(expected: int, desired: int, spurious: bool) returns (ok: bool)
      modifies this`state
      ensures ok == (old(state) == expected && !spurious)
      ensures state == if ok then Wrap32(desired) else old(state)
    {
      ok := state == expected && !spurious;
      if ok {
        state := Wrap32(desired);
      }
    }

    /** One atomic operation of the loop in `rwlock_read_lock`. */
    method ReadLockStep(t: nat, spurious: bool)
      requires Valid() && t < |threads| && (threads[t].ReadLoad? || threads[t].ReadCas?)
      modifies this
      ensures Valid() && Snapshot() == Step(old(Snapshot()), t, Go(spurious))
    {
      StepKeepsInv(Snapshot(), t, Go(spurious));
      match threads[t] {
        case ReadLoad =>
          var s := state;
          if s >= 0 {
            threads := threads[t := ReadCas(s)];
          }
        case ReadCas(s) =>
          var ok := CompareExchange(s, s + 1, spurious);
          threads := threads[t := if ok then Reading else ReadLoad];
      }
    }

    /** `rwlock_read_unlock`. */
    method ReadUnlock(t: nat)
      requires Valid() && t < |threads| && threads[t] == Reading
      modifies this
      ensures Valid() && forall choice :: Snapshot() == Step(old(Snapshot()), t, choice)
    {
      StepKeepsInv(Snapshot(), t, Go(false));
      state := Wrap32(state - 1);
      threads := threads[t := Idle];
    }

    /** One turn of the loop in `rwlock_write_lock`. */
    method WriteLockStep(t: nat, spurious: bool)
      requires Valid() && t < |threads| && threads[t] == WriteCas
      modifies this
      ensures Valid() && Snapshot() == Step(old(Snapshot()), t, Go(spurious))
    {
      StepKeepsInv(Snapshot(), t, Go(spurious));
      var ok := CompareExchange(0, -1, spurious);
      if ok {
        FitsInt32(-1);
        threads := threads[t := Writing];
      }
    }

    /** `rwlock_write_unlock`. */
    method WriteUnlock(t: nat)
      requires Valid() && t < |threads| && threads[t] == Writing
      modifies this
      ensures Valid() && forall choice :: Snapshot() == Step(old(Snapshot()), t, choice)
    {
      StepKeepsInv(Snapshot(), t, Go(false));
      state := 0;
      threads := threads[t := Idle];
    }

    /** The scheduled thread's next step, whatever it is. */
    method Act(t: nat, choice: Choice)
      requires Valid() && t < |threads|
      modifies this
      ensures Valid() && Snapshot() == Step(old(Snapshot()), t, choice)
    {
      match threads[t] {
        case Idle =>
          StepKeepsInv(Snapshot(), t, choice);
          if choice == EnterRead {
            threads := threads[t := ReadLoad];
          } else if choice == EnterWrite {
            threads := threads[t := WriteCas];
          }
        case ReadLoad => ReadLockStep(t, choice == Go(true));
        case ReadCas(_) => ReadLockStep(t, choice == Go(true));
        case WriteCas => WriteLockStep(t, choice == Go(true));
        case Reading => ReadUnlock(t);
        case Writing => WriteUnlock(t);
      }
    }

    /** Any schedule in place is the run of the model, so all that holds of every run holds of the
        word in memory. */
    method Execute(moves: seq<Move>)
      requires Valid() && Scheduled(moves, |threads|)
      modifies this
      ensures Valid() && Snapshot() == Run(old(Snapshot()), moves)
    {
      ghost var c := Snapshot();
      for i := 0 to |moves|
        invariant Valid() && |threads| == |c.threads| && Snapshot() == Run(c, moves[..i])
      {
        Act(moves[i].t, moves[i].choice);
        assert moves[..i + 1][..i] == moves[..i];
      }
      assert moves[..|moves|] == moves;
    }
  }
}

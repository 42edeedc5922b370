/** Spinlocks that mask interrupts (include/spinlock.h:90-106, 156-174), one machine step at a time,
    for any number of CPUs, locks and nested interrupt handlers. */
module IrqLock {
  /** A lock that a context holds, with the interrupt flag saved when it was taken. */
  datatype Entry = Entry(lock: nat, flags: bool)

  /** Where a context stands: outside the two functions; in lock_spinlock_irq after saving the
      flags; there after masking interrupts; in unlock_spinlock_irq after the store of 0. */
  datatype Phase = Calm | Saved(lock: nat, flags: bool) | Spinning(lock: nat, flags: bool) | Stored(flags: bool)

  /** A thread of control: the locks it holds in the order it took them. */
  datatype Context = Context(held: seq<Entry>, phase: Phase)

  /** An interrupted context with the interrupt flag that the return from interrupt restores. */
  datatype Frame = Frame(context: Context, flags: bool)

  datatype Cpu = Cpu(iflag: bool, below: seq<Frame>, top: Context)

  datatype System = System(cpus: seq<Cpu>, locked: set<nat>)

  /** What a CPU does next.  Release names the entry to release; Interrupt says whether the gate
      leaves interrupts enabled; SetFlag is code that enables or disables them itself. */
  datatype Action =
    | Save(lock: nat) | Mask | Try | Release(k: nat) | Restore
    | SetFlag(on: bool) | Interrupt(gate: bool) | Return

  const FRESH := Context([], Calm)

  predicate Outside(x: Context)
  {
    x.held == [] && x.phase == Calm
  }

  /** Whether the action can happen; interrupts arrive only while the flag is on, a handler returns
      with every lock released, and code outside the lock functions touches the flag only while it
      holds none. */
  predicate CanDo(u: Cpu, a: Action)
  {
    match a
    case Save(_) => u.top.phase == Calm
    case Mask => u.top.phase.Saved?
    case Try => u.top.phase.Spinning?
    case Release(k) => u.top.phase == Calm && k < |u.top.held|
    case Restore => u.top.phase.Stored?
    case SetFlag(_) => Outside(u.top)
    case Interrupt(_) => u.iflag
    case Return => u.below != [] && Outside(u.top)
  }

  /** The order in which a program releases its locks: whether it may release the k-th of the m
      locks it holds. */
  type Policy = (nat, nat) -> bool

  predicate Enabled(policy: Policy, u: Cpu, a: Action)
  {
    CanDo(u, a) && (a.Release? ==> policy(a.k, |u.top.held|))
  }

  /** The lock taken first is released last. */
  ghost predicate FirstLast(policy: Policy)
  {
    forall m: nat :: m >= 2 ==> !policy(0, m)
  }

  /** Releasing in the reverse order of acquisition. */
  function Lifo(): (r: Policy)
  {
    (k, m) => k + 1 == m
  }

  lemma LifoIsFirstLast()
    ensures FirstLast(Lifo())
  {
  }

  /** The CPU after the action, given the locks that are taken. */
  function CpuStep(u: Cpu, locked: set<nat>, a: Action): (v: Cpu)
    requires CanDo(u, a)
  {
    var x := u.top;
    match a
    case Save(l) => u.(top := x.(phase := Saved(l, u.iflag)))
    case Mask => u.(iflag := false, top := x.(phase := Spinning(x.phase.lock, x.phase.flags)))
    case Try =>
      if x.phase.lock in locked then u
      else u.(top := Context(x.held + [Entry(x.phase.lock, x.phase.flags)], Calm))
    case Release(k) => u.(top := Context(x.held[..k] + x.held[k + 1..], Stored(x.held[k].flags)))
    case Restore => u.(iflag := x.phase.flags, top := x.(phase := Calm))
    case SetFlag(on) => u.(iflag := on)
    case Interrupt(gate) => Cpu(gate, u.below + [Frame(x, u.iflag)], FRESH)
    case Return =>
      var f := u.below[|u.below| - 1];
      Cpu(f.flags, u.below[..|u.below| - 1], f.context)
  }

  function LockedAfter(u: Cpu, locked: set<nat>, a: Action): (r: set<nat>)
    requires CanDo(u, a)
  {
    match a
    case Try => locked + {u.top.phase.lock}
    case Release(k) => locked - {u.top.held[k].lock}
    case _ => locked
  }

  /** One step of CPU p; an action that cannot happen changes nothing. */
  function Step(policy: Policy, c: System, p: nat, a: Action): (c': System)
    requires p < |c.cpus|
    ensures |c'.cpus| == |c.cpus|
  {
    if Enabled(policy, c.cpus[p], a)
    then System(c.cpus[p := CpuStep(c.cpus[p], c.locked, a)], LockedAfter(c.cpus[p], c.locked, a))
    else c
  }

  datatype Move = Move(p: nat, action: Action)

  predicate Scheduled(moves: seq<Move>, n: nat)
  {
    forall i: nat :: i < |moves| ==> moves[i].p < n
  }

  function Run(policy: Policy, c: System, moves: seq<Move>): (c': System)
    requires Scheduled(moves, |c.cpus|)
    ensures |c'.cpus| == |c.cpus|
  {
    if moves == [] then c
    else
      var last := moves[|moves| - 1];
      Step(policy, Run(policy, c, moves[..|moves| - 1]), last.p, last.action)
  }

  /** No lock is taken and every CPU runs one context with its own interrupt flag. */
  predicate Initial(c: System)
  {
    c.locked == {} && forall p: nat :: p < |c.cpus| ==> c.cpus[p].below == [] && c.cpus[p].top == FRESH
  }

  // ---- What every CPU keeps ----

  /** An interrupted context holds no lock: it is outside the lock functions, or in the window
      between saving the flags and masking interrupts. */
  predicate Harmless(f: Frame)
  {
    f.flags && f.context.held == [] && (f.context.phase == Calm || (f.context.phase.Saved? && f.context.phase.flags))
  }

  /** From the mask on, until the flags of the first lock are restored. */
  predicate Masked(x: Context)
  {
    x.held != [] || x.phase.Spinning? || x.phase.Stored?
  }

  predicate CpuOk(u: Cpu)
  {
    && (forall i: nat :: i < |u.below| ==> Harmless(u.below[i]))
    && (Masked(u.top) ==> !u.iflag)
    && (u.top.phase.Saved? ==> u.top.phase.flags == u.iflag)
    && (u.top.held != [] && u.top.phase != Calm ==> !u.top.phase.flags)
    && (forall k: nat :: 0 < k < |u.top.held| ==> !u.top.held[k].flags)
  }

  lemma {:induction false} CpuStepOk(policy: Policy, u: Cpu, locked: set<nat>, a: Action)
    requires CpuOk(u) && FirstLast(policy) && Enabled(policy, u, a)
    ensures CpuOk(CpuStep(u, locked, a))
  {
  }

  ghost predicate AllOk(c: System)
  {
    forall p: nat :: p < |c.cpus| ==> CpuOk(c.cpus[p])
  }

  lemma {:induction false} RunKeepsOk(policy: Policy, c: System, moves: seq<Move>)
    requires FirstLast(policy) && AllOk(c) && Scheduled(moves, |c.cpus|)
    ensures AllOk(Run(policy, c, moves))
  {
    if moves != [] {
      var last, before := moves[|moves| - 1], moves[..|moves| - 1];
      RunKeepsOk(policy, c, before);
      var d := Run(policy, c, before);
      if Enabled(policy, d.cpus[last.p], last.action) {
        CpuStepOk(policy, d.cpus[last.p], d.locked, last.action);
      }
    }
  }

  lemma InitialOk(c: System)
    requires Initial(c)
    ensures AllOk(c)
  {
  }

  // ---- No handler waits for the context it interrupted ----

  predicate Holds(x: Context, l: nat)
  {
    exists k: nat :: k < |x.held| && x.held[k].lock == l
  }

  /** The running context of CPU p spins for a lock that a context it interrupted holds: since that
      one cannot run, neither will ever go on. */
  predicate Stuck(c: System, p: nat)
    requires p < |c.cpus|
  {
    var u := c.cpus[p];
    u.top.phase.Spinning? && exists i: nat :: i < |u.below| && Holds(u.below[i].context, u.top.phase.lock)
  }

  ghost predicate NeverStuck(policy: Policy)
  {
    forall c, moves, p: nat :: Initial(c) && Scheduled(moves, |c.cpus|) && p < |c.cpus| ==>
      !Stuck(Run(policy, c, moves), p)
  }

  /** The first k locks, taken in order by a context that had interrupts on. */
  function Taken(k: nat): (held: seq<Entry>)
  {
    seq(k, i requires 0 <= i => Entry(i, i == 0))
  }

  function LocksBelow(k: nat): (locks: set<nat>)
    ensures forall i: nat :: i in locks ==> i < k
  {
    if k == 0 then {} else LocksBelow(k - 1) + {k - 1}
  }

  function Solo(u: Cpu, locked: set<nat>): (c: System)
  {
    System([u], locked)
  }

  function AfterTaking(k: nat): (c: System)
  {
    Solo(Cpu(k == 0, [], Context(Taken(k), Calm)), LocksBelow(k))
  }

  function TakeMoves(k: nat): (moves: seq<Move>)
    ensures Scheduled(moves, 1)
  {
    if k == 0 then [] else TakeMoves(k - 1) + [Move(0, Save(k - 1))] + [Move(0, Mask)] + [Move(0, Try)]
  }

  lemma {:induction false} RunOneMore(policy: Policy, c: System, moves: seq<Move>, u: Cpu, locked: set<nat>, a: Action)
    requires |c.cpus| == 1 && Scheduled(moves, 1) && Run(policy, c, moves) == Solo(u, locked)
    requires Enabled(policy, u, a)
    ensures Scheduled(moves + [Move(0, a)], 1)
    ensures Run(policy, c, moves + [Move(0, a)]) == Solo(CpuStep(u, locked, a), LockedAfter(u, locked, a))
  {
    var all := moves + [Move(0, a)];
    assert all[..|all| - 1] == moves && all[|all| - 1] == Move(0, a);
    SoloStep(policy, u, locked, a);
  }

  lemma {:induction false} SoloStep(policy: Policy, u: Cpu, locked: set<nat>, a: Action)
    requires Enabled(policy, u, a)
    ensures Step(policy, Solo(u, locked), 0, a) == Solo(CpuStep(u, locked, a), LockedAfter(u, locked, a))
  {
    assert [u][0 := CpuStep(u, locked, a)] == [CpuStep(u, locked, a)];
  }

  /** Taking lock l after the locks below it. */
  lemma {:induction false} TakesOne(policy: Policy, c: System, moves: seq<Move>, l: nat, held: seq<Entry>,
                                        locked: set<nat>, on: bool)
    requires |c.cpus| == 1 && Scheduled(moves, 1) && l !in locked
    requires Run(policy, c, moves) == Solo(Cpu(on, [], Context(held, Calm)), locked)
    ensures var all := moves + [Move(0, Save(l))] + [Move(0, Mask)] + [Move(0, Try)];
      && Scheduled(all, 1)
      && Run(policy, c, all) == Solo(Cpu(false, [], Context(held + [Entry(l, on)], Calm)), locked + {l})
  {
    var m1 := moves + [Move(0, Save(l))];
    var m2 := m1 + [Move(0, Mask)];
    RunOneMore(policy, c, moves, Cpu(on, [], Context(held, Calm)), locked, Save(l));
    RunOneMore(policy, c, m1, Cpu(on, [], Context(held, Saved(l, on))), locked, Mask);
    RunOneMore(policy, c, m2, Cpu(false, [], Context(held, Spinning(l, on))), locked, Try);
  }

  /** Such a context gets there. */
  lemma {:induction false} TakesLocks(policy: Policy, k: nat)
    ensures Run(policy, AfterTaking(0), TakeMoves(k)) == AfterTaking(k)
  {
    if k > 0 {
      var l := k - 1;
      TakesLocks(policy, l);
      TakesOne(policy, AfterTaking(0), TakeMoves(l), l, Taken(l), LocksBelow(l), l == 0);
      assert Taken(l) + [Entry(l, l == 0)] == Taken(k);
    }
  }

  /** Then it releases the first lock, which restores interrupts while the others are still held; an
      interrupt arrives and its handler asks for the second lock. */
  function StuckMoves(m: nat): (moves: seq<Move>)
    ensures Scheduled(moves, 1)
  {
    TakeMoves(m) + [Move(0, Release(0))] + [Move(0, Restore)] + [Move(0, Interrupt(false))] + [Move(0, Save(1))]
      + [Move(0, Mask)]
  }

  lemma {:induction false} FirstReleasedEarlySticks(policy: Policy, m: nat)
    requires m >= 2 && policy(0, m)
    ensures Stuck(Run(policy, AfterTaking(0), StuckMoves(m)), 0)
  {
    var c, locked, rest := AfterTaking(0), LocksBelow(m) - {0}, Taken(m)[1..];
    var x := Context(rest, Calm);
    TakesLocks(policy, m);
    assert Taken(m)[..0] + Taken(m)[1..] == rest;
    var m1 := TakeMoves(m) + [Move(0, Release(0))];
    var m2 := m1 + [Move(0, Restore)];
    RunOneMore(policy, c, TakeMoves(m), Cpu(false, [], Context(Taken(m), Calm)), LocksBelow(m), Release(0));
    RunOneMore(policy, c, m1, Cpu(false, [], Context(rest, Stored(true))), locked, Restore);
    HandlerAsks(policy, c, m2, x, locked, 1);
    assert rest[0].lock == 1;
    var u := Run(policy, c, StuckMoves(m)).cpus[0];
    assert u == Cpu(false, [Frame(x, true)], Context([], Spinning(1, false)));
    assert Holds(u.below[0].context, u.top.phase.lock);
  }

  /** An interrupt with the flag on, and a handler that asks for lock l. */
  lemma {:induction false} HandlerAsks(policy: Policy, c: System, moves: seq<Move>, x: Context,
                                           locked: set<nat>, l: nat)
    requires |c.cpus| == 1 && Scheduled(moves, 1) && Run(policy, c, moves) == Solo(Cpu(true, [], x), locked)
    ensures var all := moves + [Move(0, Interrupt(false))] + [Move(0, Save(l))] + [Move(0, Mask)];
      && Scheduled(all, 1)
      && Run(policy, c, all) == Solo(Cpu(false, [Frame(x, true)], Context([], Spinning(l, false))), locked)
  {
    var m3 := moves + [Move(0, Interrupt(false))];
    var m4 := m3 + [Move(0, Save(l))];
    var u := Cpu(true, [], x);
    assert u.below + [Frame(x, true)] == [Frame(x, true)];
    RunOneMore(policy, c, moves, u, locked, Interrupt(false));
    RunOneMore(policy, c, m3, Cpu(false, [Frame(x, true)], FRESH), locked, Save(l));
    RunOneMore(policy, c, m4, Cpu(false, [Frame(x, true)], Context([], Saved(l, false))), locked, Mask);
  }

  /** No run lets a handler spin for a lock of a context it interrupted on the same CPU exactly when
      the program never releases the lock it took first while it holds another. */
  lemma {:induction false} NeverStuckIffFirstLast(policy: Policy)
    ensures NeverStuck(policy) <==> FirstLast(policy)
  {
    if FirstLast(policy) {
      forall c, moves, p: nat | Initial(c) && Scheduled(moves, |c.cpus|) && p < |c.cpus|
        ensures !Stuck(Run(policy, c, moves), p)
      {
        InitialOk(c);
        RunKeepsOk(policy, c, moves);
      }
    } else {
      var m: nat :| m >= 2 && policy(0, m);
      FirstReleasedEarlySticks(policy, m);
      assert Initial(AfterTaking(0)) && Scheduled(StuckMoves(m), |AfterTaking(0).cpus|);
    }
  }

  lemma LifoNeverStuck()
    ensures NeverStuck(Lifo())
  {
    LifoIsFirstLast();
    NeverStuckIffFirstLast(Lifo());
  }

  // ---- Who holds a lock ----

  /** Entry k of the running context of CPU p is lock l. */
  predicate HeldAt(c: System, l: nat, p: nat, k: nat)
  {
    p < |c.cpus| && k < |c.cpus[p].top.held| && c.cpus[p].top.held[k].lock == l
  }

  /** The word of a lock is set exactly when some running context holds the lock, and then only
      one does, once. */
  ghost predicate LocksOk(c: System)
  {
    && (forall l: nat :: l in c.locked ==> exists p: nat, k: nat :: HeldAt(c, l, p, k))
    && (forall l: nat, p: nat, k: nat :: HeldAt(c, l, p, k) ==> l in c.locked)
    && (forall l: nat, p: nat, k: nat, q: nat, j: nat :: HeldAt(c, l, p, k) && HeldAt(c, l, q, j) ==> p == q && k == j)
  }

  /** The other CPUs hold what they held. */
  lemma LocksKept(c: System, p: nat, v: Cpu)
    requires p < |c.cpus| && LocksOk(c) && v.top.held == c.cpus[p].top.held
    ensures LocksOk(System(c.cpus[p := v], c.locked))
  {
    var c' := System(c.cpus[p := v], c.locked);
    assert forall l: nat, q: nat, k: nat :: HeldAt(c', l, q, k) <==> HeldAt(c, l, q, k);
  }

  lemma LockTaken(c: System, p: nat, v: Cpu, e: Entry)
    requires p < |c.cpus| && LocksOk(c) && e.lock !in c.locked && v.top.held == c.cpus[p].top.held + [e]
    ensures LocksOk(System(c.cpus[p := v], c.locked + {e.lock}))
  {
    var c', n := System(c.cpus[p := v], c.locked + {e.lock}), |c.cpus[p].top.held|;
    assert forall l: nat, q: nat, k: nat ::
      HeldAt(c', l, q, k) <==> HeldAt(c, l, q, k) || (l == e.lock && q == p && k == n);
    assert HeldAt(c', e.lock, p, n);
    forall l: nat | l in c'.locked ensures exists q: nat, k: nat :: HeldAt(c', l, q, k) {
      if l != e.lock {
        var q: nat, k: nat :| HeldAt(c, l, q, k);
        assert HeldAt(c', l, q, k);
      }
    }
  }

  /** Entry j after entry i was removed. */
  function Shifted(i: nat, j: nat): (k: nat)
  {
    if j < i then j else j + 1
  }

  lemma LockReleased(c: System, p: nat, v: Cpu, i: nat)
    requires p < |c.cpus| && LocksOk(c)
    requires var x := c.cpus[p].top; i < |x.held| && v.top.held == x.held[..i] + x.held[i + 1..]
    ensures LocksOk(System(c.cpus[p := v], c.locked - {c.cpus[p].top.held[i].lock}))
  {
    var x := c.cpus[p].top;
    var gone := x.held[i].lock;
    var c' := System(c.cpus[p := v], c.locked - {gone});
    assert HeldAt(c, gone, p, i);
    forall l: nat, q: nat, k: nat
      ensures HeldAt(c', l, q, k) <==> HeldAt(c, l, q, if q == p then Shifted(i, k) else k)
    {
    }
    forall l: nat | l in c'.locked ensures exists q: nat, k: nat :: HeldAt(c', l, q, k) {
      var q: nat, k: nat :| HeldAt(c, l, q, k);
      assert HeldAt(c', l, q, if q == p && k > i then k - 1 else k);
    }
  }

  lemma {:induction false} StepKeepsLocks(policy: Policy, c: System, p: nat, a: Action)
    requires p < |c.cpus| && AllOk(c) && LocksOk(c)
    ensures LocksOk(Step(policy, c, p, a))
  {
    var u := c.cpus[p];
    if Enabled(policy, u, a) {
      var v := CpuStep(u, c.locked, a);
      if a == Try && u.top.phase.lock !in c.locked {
        LockTaken(c, p, v, Entry(u.top.phase.lock, u.top.phase.flags));
      } else if a.Release? {
        LockReleased(c, p, v, a.k);
      } else {
        assert a == Try ==> c.locked + {u.top.phase.lock} == c.locked;
        LocksKept(c, p, v);
      }
    }
  }

  lemma {:induction false} RunKeepsLocks(policy: Policy, c: System, moves: seq<Move>)
    requires FirstLast(policy) && Initial(c) && Scheduled(moves, |c.cpus|)
    ensures AllOk(Run(policy, c, moves)) && LocksOk(Run(policy, c, moves))
  {
    InitialOk(c);
    RunKeepsOk(policy, c, moves);
    if moves != [] {
      var last, before := moves[|moves| - 1], moves[..|moves| - 1];
      RunKeepsLocks(policy, c, before);
      StepKeepsLocks(policy, Run(policy, c, before), last.p, last.action);
    }
  }

  /** In every run in which the first lock is released last, a lock whose word is set is held by
      exactly one context, which is running, not interrupted, and cannot be interrupted. */
  lemma {:induction false} HolderIsRunning(policy: Policy, c: System, moves: seq<Move>, l: nat)
    requires FirstLast(policy) && Initial(c) && Scheduled(moves, |c.cpus|)
    ensures var d := Run(policy, c, moves);
      && (l in d.locked <==> exists p: nat, k: nat :: HeldAt(d, l, p, k))
      && (forall p: nat, k: nat :: HeldAt(d, l, p, k) ==> !d.cpus[p].iflag)
      && (forall p: nat, k: nat, q: nat, j: nat :: HeldAt(d, l, p, k) && HeldAt(d, l, q, j) ==> p == q && k == j)
      && (forall p: nat, i: nat :: p < |d.cpus| && i < |d.cpus[p].below| ==> !Holds(d.cpus[p].below[i].context, l))
  {
    RunKeepsLocks(policy, c, moves);
  }

  // ---- The interrupt flag over a nest of locks ----

  /** The context at depth d of the stack of contexts of a CPU. */
  function ContextAt(u: Cpu, d: nat): (r: Context)
    requires d <= |u.below|
  {
    if d < |u.below| then u.below[d].context else u.top
  }

  /** The context at depth d saved the flag b before its first mask and has not masked yet. */
  predicate BeforeMask(u: Cpu, d: nat, b: bool)
  {
    d <= |u.below| && var x := ContextAt(u, d); x.held == [] && x.phase.Saved? && x.phase.flags == b
  }

  /** It has masked, with interrupts off since, and not yet restored the flags of its first lock. */
  predicate UnderMask(u: Cpu, d: nat, b: bool)
  {
    && d == |u.below| && !u.iflag
    && if u.top.held == [] then !u.top.phase.Calm? && !u.top.phase.Saved? && u.top.phase.flags == b
       else u.top.held[0].flags == b
  }

  /** It is outside again, with the flag it started with. */
  predicate Over(u: Cpu, d: nat, b: bool)
  {
    d == |u.below| && Outside(u.top) && u.iflag == b
  }

  /** One action of the CPU, by this context or by a handler that came in before the mask. */
  lemma {:induction false} SessionStep(policy: Policy, u: Cpu, locked: set<nat>, a: Action, d: nat, b: bool)
    requires CpuOk(u) && FirstLast(policy) && Enabled(policy, u, a) && (BeforeMask(u, d, b) || UnderMask(u, d, b))
    ensures var v := CpuStep(u, locked, a);
      if BeforeMask(u, d, b) then BeforeMask(v, d, b) || UnderMask(v, d, b)
      else UnderMask(v, d, b) || Over(v, d, b)
  {
  }

  /** At every instant of a nest its context has not masked yet or interrupts are off on its CPU, and
      once they are off they stay off; at the first instant at which the context has released all
      its locks, its interrupt flag is b again.  Other CPUs, handlers and any depth of further locks
      do not matter. */
  lemma {:induction false} NestRuns(policy: Policy, c: System, moves: seq<Move>, p: nat, d: nat, b: bool)
    requires FirstLast(policy) && AllOk(c) && Scheduled(moves, |c.cpus|) && p < |c.cpus|
    requires BeforeMask(c.cpus[p], d, b) || UnderMask(c.cpus[p], d, b)
    requires forall j: nat :: j < |moves| ==> InNest(Run(policy, c, moves[..j]), p, d)
    ensures var u := Run(policy, c, moves).cpus[p];
      || UnderMask(u, d, b)
      || if UnderMask(c.cpus[p], d, b) then Over(u, d, b) else BeforeMask(u, d, b) || Over(u, d, b)
  {
    if moves != [] {
      var last, before := moves[|moves| - 1], moves[..|moves| - 1];
      forall j: nat | j < |before| ensures InNest(Run(policy, c, before[..j]), p, d) {
        assert before[..j] == moves[..j];
      }
      NestRuns(policy, c, before, p, d, b);
      RunKeepsOk(policy, c, before);
      var e := Run(policy, c, before);
      assert InNest(e, p, d);
      if last.p == p && Enabled(policy, e.cpus[p], last.action) {
        SessionStep(policy, e.cpus[p], e.locked, last.action, d, b);
      }
    }
  }

  /** The context at depth d of CPU p is not back outside. */
  predicate InNest(c: System, p: nat, d: nat)
    requires p < |c.cpus|
  {
    !(|c.cpus[p].below| == d && Outside(c.cpus[p].top))
  }

  /** The nest from its first save on: a context outside the lock functions saves the flags, whatever
      they are, for its first lock.  From then on, as long as it has not come outside again, it has
      not masked yet or interrupts are off; and when it comes outside again the flag is what it was
      at that save. */
  lemma {:induction false} FlagRestoredAfterNest(policy: Policy, c: System, moves: seq<Move>, p: nat, l: nat)
    requires FirstLast(policy) && AllOk(c) && Scheduled(moves, |c.cpus|) && p < |c.cpus| && Outside(c.cpus[p].top)
    requires forall j: nat :: j < |moves| ==>
      InNest(Run(policy, Step(policy, c, p, Save(l)), moves[..j]), p, |c.cpus[p].below|)
    ensures var u, v := c.cpus[p], Run(policy, Step(policy, c, p, Save(l)), moves).cpus[p];
      BeforeMask(v, |u.below|, u.iflag) || UnderMask(v, |u.below|, u.iflag) || Over(v, |u.below|, u.iflag)
  {
    var u, c1 := c.cpus[p], Step(policy, c, p, Save(l));
    CpuStepOk(policy, u, c.locked, Save(l));
    assert BeforeMask(c1.cpus[p], |u.below|, u.iflag);
    NestRuns(policy, c1, moves, p, |u.below|, u.iflag);
  }

  // ---- The machine in memory ----

  /** The CPUs and the lock words, changed in place one machine step at a time. */
  class Machine {
    var cpus: seq<Cpu>
    var locked: set<nat>

    ghost function Snapshot(): (r: System)
      reads this
    {
      System(cpus, locked)
    }

    ghost predicate Valid()
      reads this
    {
      AllOk(Snapshot()) && LocksOk(Snapshot())
    }

    constructor (flags: seq<bool>)
      ensures Valid() && Initial(Snapshot()) && |cpus| == |flags|
      ensures forall p: nat :: p < |flags| ==> cpus[p].iflag == flags[p]
    {
      cpus := seq(|flags|, p requires 0 <= p < |flags| => Cpu(flags[p], [], FRESH));
      locked := {};
    }

    /** `*flags = read_rflags()`. */
    method SaveFlags(p: nat, l: nat)
      requires Valid() && p < |cpus| && cpus[p].top.phase == Calm
      modifies this`cpus
      ensures Valid() && Snapshot() == Step(Lifo(), old(Snapshot()), p, Save(l))
      ensures cpus == old(cpus)[p := cpus[p]] && cpus[p].iflag == old(cpus[p].iflag)
      ensures cpus[p].top == Context(old(cpus[p].top.held), Saved(l, old(cpus[p].iflag)))
    {
      KeepsValid(Lifo(), Snapshot(), p, Save(l));
      var u := cpus[p];
      var flags := u.iflag;
      cpus := cpus[p := u.(top := u.top.(phase := Saved(l, flags)))];
    }

    /** `interrupts_off()`. */
    method MaskInterrupts(p: nat)
      requires Valid() && p < |cpus| && cpus[p].top.phase.Saved?
      modifies this`cpus
      ensures Valid() && Snapshot() == Step(Lifo(), old(Snapshot()), p, Mask)
      ensures cpus == old(cpus)[p := cpus[p]] && !cpus[p].iflag
      ensures var was := old(cpus[p].top); cpus[p].top == Context(was.held, Spinning(was.phase.lock, was.phase.flags))
    {
      KeepsValid(Lifo(), Snapshot(), p, Mask);
      var u := cpus[p];
      var x := u.top;
      cpus := cpus[p := u.(iflag := false, top := x.(phase := Spinning(x.phase.lock, x.phase.flags)))];
    }

    /** One turn of the loop in `spin_until_locked`. */
    method TryOnce(p: nat) returns (ok: bool)
      requires Valid() && p < |cpus| && cpus[p].top.phase.Spinning?
      modifies this
      ensures Valid() && Snapshot() == Step(Lifo(), old(Snapshot()), p, Try)
      ensures ok <==> old(cpus[p].top.phase.lock !in locked)
      ensures var was := old(cpus[p].top); ok ==>
        && locked == old(locked) + {was.phase.lock}
        && cpus[p].top == Context(was.held + [Entry(was.phase.lock, was.phase.flags)], Calm)
      ensures !ok ==> cpus == old(cpus) && locked == old(locked)
    {
      KeepsValid(Lifo(), Snapshot(), p, Try);
      var u := cpus[p];
      var l := u.top.phase.lock;
      ok := l !in locked;
      if ok {
        locked := locked + {l};
        cpus := cpus[p := u.(top := Context(u.top.held + [Entry(l, u.top.phase.flags)], Calm))];
      } else {
        assert locked + {l} == locked;
      }
    }

    /** The store of `unlock_spinlock_irq`, for the lock taken last. */
    method StoreZero(p: nat)
      requires Valid() && p < |cpus| && cpus[p].top.phase == Calm && cpus[p].top.held != []
      modifies this
      ensures Valid() && Snapshot() == Step(Lifo(), old(Snapshot()), p, Release(old(|cpus[p].top.held|) - 1))
      ensures var was := old(cpus[p].top.held); var last := was[|was| - 1];
        && locked == old(locked) - {last.lock}
        && cpus[p].top == Context(was[..|was| - 1], Stored(last.flags)) && cpus[p].iflag == old(cpus[p].iflag)
    {
      var u := cpus[p];
      var n := |u.top.held| - 1;
      KeepsValid(Lifo(), Snapshot(), p, Release(n));
      assert u.top.held[..n] + u.top.held[n + 1..] == u.top.held[..n];
      locked := locked - {u.top.held[n].lock};
      cpus := cpus[p := u.(top := Context(u.top.held[..n], Stored(u.top.held[n].flags)))];
    }

    /** `write_rflags(flags)`. */
    method RestoreFlags(p: nat)
      requires Valid() && p < |cpus| && cpus[p].top.phase.Stored?
      modifies this`cpus
      ensures Valid() && Snapshot() == Step(Lifo(), old(Snapshot()), p, Restore)
      ensures cpus[p].iflag == old(cpus[p].top.phase.flags) && cpus[p].top == Context(old(cpus[p].top.held), Calm)
    {
      KeepsValid(Lifo(), Snapshot(), p, Restore);
      var u := cpus[p];
      cpus := cpus[p := u.(iflag := u.top.phase.flags, top := u.top.(phase := Calm))];
    }
  }

  lemma {:induction false} KeepsValid(policy: Policy, c: System, p: nat, a: Action)
    requires FirstLast(policy) && AllOk(c) && LocksOk(c) && p < |c.cpus|
    ensures AllOk(Step(policy, c, p, a)) && LocksOk(Step(policy, c, p, a))
  {
    StepKeepsLocks(policy, c, p, a);
    if Enabled(policy, c.cpus[p], a) {
      CpuStepOk(policy, c.cpus[p], c.locked, a);
    }
  }
}

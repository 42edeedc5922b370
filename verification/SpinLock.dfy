/** The spinlock (include/spinlock.h): byte-wide test-and-set and clear mixed with 32-bit
    compare-and-swap and store on one word, for any number of threads in any interleaving. */
module SpinLock {
  import opened Sets

  /** The four bytes of the lock word in memory, lowest address first. */
  datatype Word = Word(b0: nat, b1: nat, b2: nat, b3: nat)

  const ZERO := Word(0, 0, 0, 0)

  datatype Order = Little | Big

  /** The 32-bit value of the word in memory. */
  function Value(o: Order, w: Word): (r: nat)
  {
    match o
    case Little => w.b0 + 0x100 * w.b1 + 0x1_0000 * w.b2 + 0x100_0000 * w.b3
    case Big => w.b3 + 0x100 * w.b2 + 0x1_0000 * w.b1 + 0x100_0000 * w.b0
  }

  /** In either order a 32-bit access reads 0 exactly when all four bytes are zero. */
  lemma ValueZero(o: Order, w: Word)
    ensures Value(o, w) == 0 <==> w == ZERO
  {
  }

  /** The bytes that a 32-bit store of 0 or 1 leaves. */
  function Stored(o: Order, bit: nat): (r: Word)
  {
    match o
    case Little => Word(bit, 0, 0, 0)
    case Big => Word(0, 0, 0, bit)
  }

  /** The width of an access to the word. */
  datatype Width = Byte | Full

  /** Where a thread stands: outside; about to acquire with one width, in a call that blocks or in
      one that tries once; polling the whole word; holding the lock. */
  datatype Pc = Idle | Attempt(width: Width, blocking: bool) | Poll | Holding

  datatype System = System(word: Word, threads: seq<Pc>)

  /** lock_spinlock is Enter(Byte, true), try_lock_spinlock Enter(Byte, false), spin_until_locked
      Enter(Full, true) and try_lock Enter(Full, false); a holder that proceeds releases with
      unlock_spinlock (Byte) or with the store of unlock_spinlock_irq (Full). */
  datatype Choice = Enter(width: Width, blocking: bool) | Proceed(release: Width)

  function With(c: System, t: nat, word: Word, pc: Pc): (r: System)
    requires t < |c.threads|
  {
    System(word, c.threads[t := pc])
  }

  function Step(o: Order, c: System, t: nat, choice: Choice): (c': System)
    requires t < |c.threads|
    ensures |c'.threads| == |c.threads|
  {
    match c.threads[t]
    case Idle => if choice.Enter? then With(c, t, c.word, Attempt(choice.width, choice.blocking)) else c
    case Attempt(Byte, blocking) =>
      With(c, t, c.word.(b0 := 1), if c.word.b0 == 0 then Holding else if blocking then Poll else Idle)
    case Attempt(Full, blocking) =>
      if c.word == ZERO then With(c, t, Stored(o, 1), Holding)
      else if blocking then c
      else With(c, t, c.word, Idle)
    case Poll => if c.word == ZERO then With(c, t, c.word, Attempt(Byte, true)) else c
    case Holding =>
      if choice.Enter? then c
      else With(c, t, if choice.release == Byte then c.word.(b0 := 0) else Stored(o, 0), Idle)
  }

  datatype Move = Move(t: nat, choice: Choice)

  /** The schedule names only n threads and acquires only with the given widths. */
  predicate Scheduled(moves: seq<Move>, n: nat, widths: set<Width>)
  {
    forall i: nat :: i < |moves| ==>
      moves[i].t < n && (moves[i].choice.Enter? ==> moves[i].choice.width in widths)
  }

  function Init(n: nat): (r: System)
  {
    System(ZERO, seq(n, t => Idle))
  }

  function Run(o: Order, c: System, moves: seq<Move>): (c': System)
    requires forall i: nat :: i < |moves| ==> moves[i].t < |c.threads|
    ensures |c'.threads| == |c.threads|
  {
    if moves == [] then c
    else
      var last := moves[|moves| - 1];
      Step(o, Run(o, c, moves[..|moves| - 1]), last.t, last.choice)
  }

  ghost function Holders(c: System): (r: set<nat>)
  {
    set t: nat | t < |c.threads| && c.threads[t] == Holding
  }

  lemma HoldersAfter(c: System, c': System, t: nat)
    requires t < |c.threads| == |c'.threads| && c'.threads == c.threads[t := c'.threads[t]]
    ensures Holders(c') == if c'.threads[t] == Holding then Holders(c) + {t} else Holders(c) - {t}
    ensures t in Holders(c) <==> c.threads[t] == Holding
  {
  }

  lemma StepChangesOne(o: Order, c: System, t: nat, choice: Choice)
    requires t < |c.threads|
    ensures var c' := Step(o, c, t, choice); c'.threads == c.threads[t := c'.threads[t]]
  {
  }

  /** Test-and-set runs only if it is among the widths used. */
  ghost predicate Uses(c: System, widths: set<Width>)
  {
    forall t: nat :: t < |c.threads| ==>
      && (c.threads[t].Attempt? ==> c.threads[t].width in widths)
      && (c.threads[t].Poll? ==> Byte in widths)
  }

  lemma StepUses(o: Order, c: System, t: nat, choice: Choice, widths: set<Width>)
    requires t < |c.threads| && Uses(c, widths) && (choice.Enter? ==> choice.width in widths)
    ensures Uses(Step(o, c, t, choice), widths)
  {
  }

  // ---- Both kinds of access meet in the first byte ----

  /** The first byte counts the holders and the other three are zero. */
  ghost predicate FirstByteCounts(c: System)
  {
    c.word.b1 == c.word.b2 == c.word.b3 == 0 && |Holders(c)| == c.word.b0 <= 1
  }

  /** A step that leaves the other bytes zero and moves the first byte and the holders together. */
  lemma FirstByteMoves(c: System, c': System, t: nat)
    requires FirstByteCounts(c) && t < |c.threads| == |c'.threads| && c'.threads == c.threads[t := c'.threads[t]]
    requires c'.word.b1 == c'.word.b2 == c'.word.b3 == 0
    requires c'.word.b0 == if c'.threads[t] == Holding then 1 else if c.threads[t] == Holding then 0 else c.word.b0
    requires c'.threads[t] == Holding ==> c.threads[t] == Holding || c.word.b0 == 0
    ensures FirstByteCounts(c')
  {
    HoldersAfter(c, c', t);
    OneMoreOrLess(Holders(c), t);
  }

  /** It stays so on a little-endian machine, and on any machine without 32-bit acquires. */
  lemma StepKeepsFirstByte(o: Order, c: System, t: nat, choice: Choice, widths: set<Width>)
    requires t < |c.threads| && FirstByteCounts(c) && Uses(c, widths) && (o == Little || Full !in widths)
    ensures FirstByteCounts(Step(o, c, t, choice))
  {
    StepChangesOne(o, c, t, choice);
    HeldMeansSet(c, t);
    FirstByteMoves(c, Step(o, c, t, choice), t);
  }

  lemma HeldMeansSet(c: System, t: nat)
    requires t < |c.threads| && FirstByteCounts(c)
    ensures c.threads[t] == Holding ==> c.word.b0 == 1
  {
    OneMoreOrLess(Holders(c), t);
    assert c.threads[t] == Holding ==> t in Holders(c);
  }

  // ---- A big-endian machine without test-and-set ----

  /** The last byte is set while the lock is held, and possibly for ever after. */
  ghost predicate LastByteGuards(c: System)
  {
    c.word.b0 == c.word.b1 == c.word.b2 == 0 && |Holders(c)| <= c.word.b3 <= 1
  }

  lemma StepKeepsLastByte(c: System, t: nat, choice: Choice, widths: set<Width>)
    requires t < |c.threads| && LastByteGuards(c) && Uses(c, widths) && Byte !in widths
    ensures LastByteGuards(Step(Big, c, t, choice))
  {
    var c' := Step(Big, c, t, choice);
    StepChangesOne(Big, c, t, choice);
    HoldersAfter(c, c', t);
  }

  // ---- Mutual exclusion in every run ----

  predicate Mixed(widths: set<Width>)
  {
    Byte in widths && Full in widths
  }

  ghost predicate Inv(o: Order, c: System, widths: set<Width>)
  {
    Uses(c, widths) && if o == Little || Full !in widths then FirstByteCounts(c) else LastByteGuards(c)
  }

  lemma {:induction false} RunKeepsInv(o: Order, n: nat, moves: seq<Move>, widths: set<Width>)
    requires Scheduled(moves, n, widths) && (o == Little || !Mixed(widths))
    ensures Inv(o, Run(o, Init(n), moves), widths)
  {
    if moves == [] {
      assert Holders(Init(n)) == {};
    } else {
      var last, before := moves[|moves| - 1], moves[..|moves| - 1];
      RunKeepsInv(o, n, before, widths);
      var c := Run(o, Init(n), before);
      StepUses(o, c, last.t, last.choice, widths);
      if o == Little || Full !in widths {
        StepKeepsFirstByte(o, c, last.t, last.choice, widths);
      } else {
        StepKeepsLastByte(c, last.t, last.choice, widths);
      }
    }
  }

  /** On the little-endian machine that the kernel is built for, in every run that mixes the two
      kinds of acquire and release freely, at most one thread holds the lock, the upper three bytes
      are zero and the first byte tells whether it is held. */
  lemma MixedUseIsSafe(n: nat, moves: seq<Move>)
    requires Scheduled(moves, n, {Byte, Full})
    ensures var c := Run(Little, Init(n), moves);
      |Holders(c)| <= 1 && Value(Little, c.word) == |Holders(c)| && c.word == Stored(Little, |Holders(c)|)
  {
    RunKeepsInv(Little, n, moves, {Byte, Full});
  }

  /** There an attempt of either kind succeeds exactly when nobody holds the lock. */
  lemma AttemptSucceedsIffFree(n: nat, moves: seq<Move>, t: nat, choice: Choice)
    requires Scheduled(moves, n, {Byte, Full}) && t < n && Run(Little, Init(n), moves).threads[t].Attempt?
    ensures var c := Run(Little, Init(n), moves);
      Step(Little, c, t, choice).threads[t] == Holding <==> Holders(c) == {}
  {
    RunKeepsInv(Little, n, moves, {Byte, Full});
  }

  /** The thread is in lock_spinlock or spin_until_locked. */
  predicate Blocked(pc: Pc)
  {
    pc.Poll? || (pc.Attempt? && pc.blocking)
  }

  /** How a step of thread t ends: a call that blocks goes on or ends with the lock; a call that tries
      once ends at once; a holder leaves only by a release; and no other thread moves. */
  lemma CallsEndAsAsked(o: Order, c: System, t: nat, choice: Choice, u: nat)
    requires t < |c.threads| && u < |c.threads|
    ensures var was, pc := c.threads[t], Step(o, c, t, choice).threads[t];
      && (was == Idle ==> pc == if choice.Enter? then Attempt(choice.width, choice.blocking) else Idle)
      && (Blocked(was) ==> Blocked(pc) || pc == Holding)
      && (was.Attempt? && !was.blocking ==> pc == Holding || pc == Idle)
      && (was == Holding ==> pc == if choice.Enter? then Holding else Idle)
      && (was == Poll ==> pc != Holding)
    ensures u != t ==> Step(o, c, t, choice).threads[u] == c.threads[u]
  {
  }

  /** In every run on the little-endian machine, a call that tries once ends without the lock exactly
      when another thread holds it, and a failed attempt or a poll leaves the word as it was. */
  lemma TriesEndAtOnce(n: nat, moves: seq<Move>, t: nat, choice: Choice)
    requires Scheduled(moves, n, {Byte, Full}) && t < n
    ensures var c := Run(Little, Init(n), moves); var c' := Step(Little, c, t, choice);
      && (c.threads[t].Attempt? && !c.threads[t].blocking ==> (c'.threads[t] == Idle <==> Holders(c) != {}))
      && ((c.threads[t].Attempt? || c.threads[t].Poll?) && c'.threads[t] != Holding ==> c'.word == c.word)
  {
    RunKeepsInv(Little, n, moves, {Byte, Full});
    var c := Run(Little, Init(n), moves);
    OneMoreOrLess(Holders(c), t);
  }

  ghost predicate SafeInEveryRun(o: Order, n: nat, widths: set<Width>)
  {
    forall moves :: Scheduled(moves, n, widths) ==> |Holders(Run(o, Init(n), moves))| <= 1
  }

  /** One thread acquires with compare-and-swap, then another with test-and-set. */
  const Clash: seq<Move> := [
    Move(0, Enter(Full, true)), Move(0, Proceed(Byte)),
    Move(1, Enter(Byte, true)), Move(1, Proceed(Byte))]

  lemma ClashRun(n: nat)
    requires n >= 2
    ensures forall widths :: Mixed(widths) ==> Scheduled(Clash, n, widths)
    ensures Run(Big, Init(n), Clash).threads[..2] == [Holding, Holding]
  {
    var c := Init(n);
    assert Clash[..3][..2][..1][..0] == [] && Clash[..3][..2][..1] == [Clash[0]];
    var c1 := With(c, 0, c.word, Attempt(Full, true));
    assert Run(Big, c, Clash[..3][..2][..1]) == c1;
    var c2 := With(c1, 0, Word(0, 0, 0, 1), Holding);
    assert Run(Big, c, Clash[..3][..2]) == c2;
    var c3 := With(c2, 1, Word(0, 0, 0, 1), Attempt(Byte, true));
    assert Run(Big, c, Clash[..3]) == c3;
    assert Run(Big, c, Clash) == With(c3, 1, Word(1, 0, 0, 1), Holding);
  }

  /** Mutual exclusion holds in every run exactly when the machine is little-endian, or the two
      kinds of acquire are not mixed, or there is only one thread. */
  lemma SafeIffLittleOrUnmixed(o: Order, n: nat, widths: set<Width>)
    ensures SafeInEveryRun(o, n, widths) <==> o == Little || !Mixed(widths) || n < 2
  {
    forall moves | Scheduled(moves, n, widths) && (o == Little || !Mixed(widths) || n < 2)
      ensures |Holders(Run(o, Init(n), moves))| <= 1
    {
      if n < 2 {
        assert Holders(Run(o, Init(n), moves)) <= {0};
        SingleOrNone(Holders(Run(o, Init(n), moves)));
      } else {
        RunKeepsInv(o, n, moves, widths);
      }
    }
    if o == Big && Mixed(widths) && n >= 2 {
      ClashRun(n);
      var c := Run(Big, Init(n), Clash);
      assert c.threads[..2][0] == c.threads[0] && c.threads[..2][1] == c.threads[1];
      TwoHolders(Holders(c));
      assert Scheduled(Clash, n, widths);
    }
  }

  lemma SingleOrNone(a: set<nat>)
    requires a <= {0}
    ensures |a| <= 1
  {
    if 0 in a {
      assert a == {0};
    }
  }

  lemma TwoHolders(a: set<nat>)
    requires 0 in a && 1 in a
    ensures |a| >= 2
  {
    assert |a - {0}| >= 1;
  }

  // ---- The word in memory ----

  type Octet = x: nat | x < 256

  /** The lock word as four bytes that the atomic operations change in place. */
  class LockWord {
    const bytes: array<Octet>
    const order: Order

    ghost predicate Valid()
      reads this
    {
      bytes.Length == 4
    }

    ghost function Contents(): (r: Word)
      reads this, bytes
      requires Valid()
    {
      Word(bytes[0], bytes[1], bytes[2], bytes[3])
    }

    /** `init_spinlock`. */
    constructor (order: Order)
      ensures Valid() && fresh(bytes) && this.order == order && Contents() == ZERO
    {
      this.order := order;
      bytes := new Octet[4](i => 0);
    }

    /** `__atomic_test_and_set` in lock_spinlock and try_lock_spinlock. */
    method TestAndSet() returns (was: bool)
      requires Valid()
      modifies bytes
      ensures was == (old(Contents()).b0 != 0) && Contents() == old(Contents()).(b0 := 1)
    {
      was := bytes[0] != 0;
      bytes[0] := 1;
    }

    /** `unlock_spinlock`. */
    method Clear()
      requires Valid()
      modifies bytes
      ensures Contents() == old(Contents()).(b0 := 0)
    {
      bytes[0] := 0;
    }

    /** A 32-bit store of 0 or 1. */
    method Store32(bit: Octet)
      requires Valid()
      modifies bytes
      ensures Contents() == Stored(order, bit)
    {
      bytes[0], bytes[1], bytes[2], bytes[3] := 0, 0, 0, 0;
      bytes[if order == Little then 0 else 3] := bit;
    }

    /** `try_lock`: a strong compare-and-swap from 0 to 1. */
    method TryLock() returns (ok: bool)
      requires Valid()
      modifies bytes
      ensures ok == (Value(order, old(Contents())) == 0)
      ensures Contents() == if ok then Stored(order, 1) else old(Contents())
    {
      ValueZero(order, Contents());
      ok := bytes[0] == 0 && bytes[1] == 0 && bytes[2] == 0 && bytes[3] == 0;
      if ok {
        Store32(1);
      }
    }

    /** One attempt to acquire performs the step of the model. */
    method AttemptStep(ghost c: System, ghost t: nat, width: Width, blocking: bool, ghost choice: Choice)
      returns (pc: Pc)
      requires Valid() && t < |c.threads| && c.word == Contents() && c.threads[t] == Attempt(width, blocking)
      modifies bytes
      ensures blocking ==> Blocked(pc) || pc == Holding
      ensures !blocking ==> pc == Idle || pc == Holding
      ensures pc == Holding <==> if width == Byte then old(Contents()).b0 == 0 else Value(order, old(Contents())) == 0
      ensures var c' := Step(order, c, t, choice); Contents() == c'.word && pc == c'.threads[t]
    {
      ValueZero(order, Contents());
      if width == Byte {
        var was := TestAndSet();
        pc := if !was then Holding else if blocking then Poll else Idle;
      } else {
        var ok := TryLock();
        pc := if ok then Holding else if blocking then Attempt(Full, true) else Idle;
      }
    }

    /** So does a release. */
    method ReleaseStep(ghost c: System, ghost t: nat, release: Width)
      requires Valid() && t < |c.threads| && c.word == Contents() && c.threads[t] == Holding
      modifies bytes
      ensures Contents() == Step(order, c, t, Proceed(release)).word
    {
      if release == Byte {
        Clear();
      } else {
        Store32(0);
      }
    }
  }
}

/** The condition variable (include/cv.h), one atomic operation per event, for any number of
    threads in any interleaving. */
module CondVar {
  import opened Int32
  import opened Sets

  /** A thread is outside simple_cv_wait, or spins there with its ticket. */
  datatype Pc = Outside | Waiting(id: int)

  datatype System = System(waiting: int, threads: seq<Pc>)

  /** A thread takes a ticket, a thread compares the counter with its ticket, or somebody calls
      simple_cv_broadcast. */
  datatype Event = Arrive(t: nat) | Poll(t: nat) | Broadcast

  /** The counter after a ticket was taken, which is also the ticket. */
  function Ticket(waiting: int): (r: int)
  {
    Wrap32(waiting + 1)
  }

  /** The loop of simple_cv_wait ends. */
  predicate Passes(waiting: int, id: int)
  {
    waiting < id
  }

  /** The thread of the event is where the event can happen. */
  predicate Fits(c: System, e: Event)
  {
    match e
    case Arrive(t) => t < |c.threads| && c.threads[t].Outside?
    case Poll(t) => t < |c.threads| && c.threads[t].Waiting?
    case Broadcast => true
  }

  function Step(c: System, e: Event): (c': System)
    requires Fits(c, e)
    ensures |c'.threads| == |c.threads|
  {
    match e
    case Arrive(t) => System(Ticket(c.waiting), c.threads[t := Waiting(Ticket(c.waiting))])
    case Poll(t) => if Passes(c.waiting, c.threads[t].id) then System(c.waiting, c.threads[t := Outside]) else c
    case Broadcast => System(0, c.threads)
  }

  function Init(n: nat): (r: System)
  {
    System(0, seq(n, t => Outside))
  }

  /** Every event of the history happens where it can. */
  predicate Proper(n: nat, es: seq<Event>)
    decreases |es|, 0
  {
    es == [] || (Proper(n, es[..|es| - 1]) && Fits(Run(n, es[..|es| - 1]), es[|es| - 1]))
  }

  function Run(n: nat, es: seq<Event>): (c: System)
    requires Proper(n, es)
    ensures |c.threads| == n
    decreases |es|, 1
  {
    if es == [] then Init(n) else Step(Run(n, es[..|es| - 1]), es[|es| - 1])
  }

  // ---- What the history says ----

  /** How many threads arrived since the latest broadcast. */
  function Arrivals(es: seq<Event>): (r: nat)
  {
    if es == [] then 0
    else match es[|es| - 1]
      case Broadcast => 0
      case Arrive(_) => Arrivals(es[..|es| - 1]) + 1
      case Poll(_) => Arrivals(es[..|es| - 1])
  }

  /** Thread t has arrived, and a broadcast has followed its latest arrival. */
  predicate BroadcastSince(es: seq<Event>, t: nat)
  {
    if es == [] then false
    else if es[|es| - 1] == Broadcast then Arrived(es[..|es| - 1], t)
    else es[|es| - 1] != Arrive(t) && BroadcastSince(es[..|es| - 1], t)
  }

  predicate Arrived(es: seq<Event>, t: nat)
  {
    Arrive(t) in es
  }

  /** The place of thread t in the queue when it last arrived: one more than the arrivals since the
      broadcast before it. */
  function Place(es: seq<Event>, t: nat): (r: nat)
  {
    if es == [] then 0
    else if es[|es| - 1] == Arrive(t) then Arrivals(es)
    else Place(es[..|es| - 1], t)
  }

  /** The threads that arrived since the latest broadcast. */
  ghost function Recent(es: seq<Event>): (s: set<nat>)
  {
    if es == [] then {}
    else match es[|es| - 1]
      case Broadcast => {}
      case Arrive(t) => Recent(es[..|es| - 1]) + {t}
      case Poll(_) => Recent(es[..|es| - 1])
  }

  // ---- What every history keeps ----

  /** The counter is the number of arrivals since the latest broadcast, and the threads that arrived
      since then are still there, with tickets no larger than the counter. */
  ghost predicate Counted(n: nat, es: seq<Event>, c: System)
  {
    && |c.threads| == n && c.waiting == Arrivals(es) == |Recent(es)|
    && (forall t: nat :: t in Recent(es) ==> t < n && c.threads[t].Waiting? && c.threads[t].id <= c.waiting)
  }

  /** Also, every waiting thread has its place as its ticket. */
  ghost predicate Inv(n: nat, es: seq<Event>, c: System)
  {
    && Counted(n, es, c)
    && (forall t: nat :: t < n && c.threads[t].Waiting? ==> TicketOk(es, c.threads[t].id, t))
  }

  ghost predicate TicketOk(es: seq<Event>, id: int, t: nat)
  {
    id == Place(es, t) && id >= 1 && Arrived(es, t) && (BroadcastSince(es, t) <==> t !in Recent(es))
  }

  /** A waiting thread keeps its ticket through the events of others. */
  lemma TicketKept(es: seq<Event>, e: Event, id: int, t: nat)
    requires TicketOk(es, id, t) && e != Arrive(t)
    ensures TicketOk(es + [e], id, t)
  {
    assert (es + [e])[..|es|] == es && (es + [e])[|es|] == e;
    assert Arrive(t) in es + [e];
  }

  /** The counter and the recent arrivals after one more event. */
  lemma CounterStep(n: nat, es: seq<Event>, e: Event, c: System)
    requires n <= INT_MAX && Counted(n, es, c) && Fits(c, e)
    ensures Counted(n, es + [e], Step(c, e))
  {
    HistoryStep(es, e);
    if e.Arrive? {
      RecentFits(n, es, e.t, c);
    }
  }

  /** What one more event does to the history's counts. */
  lemma HistoryStep(es: seq<Event>, e: Event)
    ensures Arrivals(es + [e]) == if e.Broadcast? then 0 else if e.Arrive? then Arrivals(es) + 1 else Arrivals(es)
    ensures Recent(es + [e]) == if e.Broadcast? then {} else if e.Arrive? then Recent(es) + {e.t} else Recent(es)
  {
    var es' := es + [e];
    assert es'[..|es'| - 1] == es && es'[|es'| - 1] == e;
  }

  /** An arrival is not among the recent ones yet, and there is room for it in the counter. */
  lemma RecentFits(n: nat, es: seq<Event>, t: nat, c: System)
    requires n <= INT_MAX && Counted(n, es, c) && Fits(c, Arrive(t))
    ensures t !in Recent(es) && |Recent(es) + {t}| == |Recent(es)| + 1
    ensures Ticket(c.waiting) == c.waiting + 1
  {
    OneMoreOrLess(Recent(es), t);
    SubsetSize(Recent(es) + {t}, n);
    FitsInt32(c.waiting + 1);
  }

  lemma TicketsStep(n: nat, es: seq<Event>, e: Event, c: System)
    requires n <= INT_MAX && Inv(n, es, c) && Fits(c, e) && Counted(n, es + [e], Step(c, e))
    ensures Inv(n, es + [e], Step(c, e))
  {
    var es', c' := es + [e], Step(c, e);
    assert es'[..|es'| - 1] == es && es'[|es'| - 1] == e;
    forall t: nat | t < n && c'.threads[t].Waiting? ensures TicketOk(es', c'.threads[t].id, t) {
      if e == Arrive(t) {
        assert e in es';
      } else {
        TicketKept(es, e, c.threads[t].id, t);
      }
    }
  }

  lemma {:induction false} InvRun(n: nat, es: seq<Event>)
    requires n <= INT_MAX && Proper(n, es)
    ensures Inv(n, es, Run(n, es))
  {
    if es != [] {
      var before := es[..|es| - 1];
      InvRun(n, before);
      CounterStep(n, before, es[|es| - 1], Run(n, before));
      TicketsStep(n, before, es[|es| - 1], Run(n, before));
      assert before + [es[|es| - 1]] == es;
    }
  }

  /** A waiting thread holds its place as its ticket, and its next poll lets it go exactly when a
      broadcast has followed its arrival and fewer threads than its ticket have arrived since the
      latest broadcast. */
  lemma LeavesIff(n: nat, es: seq<Event>, t: nat)
    requires n <= INT_MAX && Proper(n, es) && t < n && Run(n, es).threads[t].Waiting?
    ensures Run(n, es).threads[t].id == Place(es, t)
    ensures Step(Run(n, es), Poll(t)).threads[t] == Outside <==> BroadcastSince(es, t) && Arrivals(es) < Place(es, t)
  {
    InvRun(n, es);
    assert TicketOk(es, Run(n, es).threads[t].id, t);
  }

  /** No more threads than there are can arrive between two broadcasts, so the counter never
      overflows. */
  lemma CounterFits(n: nat, es: seq<Event>)
    requires n <= INT_MAX && Proper(n, es)
    ensures Run(n, es).waiting == Arrivals(es) <= n
  {
    InvRun(n, es);
    SubsetSize(Recent(es), n);
  }

  // ---- A broadcast that is lost ----

  /** Thread 0 takes ticket 1; a broadcast; before thread 0 polls, thread 1 takes ticket 1 too. */
  const Overtaken: seq<Event> := [Arrive(0), Broadcast, Arrive(1)]

  lemma OvertakenRun()
    ensures Proper(2, Overtaken) && Run(2, Overtaken) == System(1, [Waiting(1), Waiting(1)])
  {
    var es := Overtaken;
    assert es[..2][..1][..0] == [] && es[..2][..1] == [es[0]];
    FitsInt32(1);
    assert Fits(Init(2), es[0]);
    assert Run(2, es[..2][..1]) == System(1, [Waiting(1), Outside]);
    assert Run(2, es[..2]) == System(0, [Waiting(1), Outside]);
  }

  /** Without another broadcast no number of polls lets either of them go. */
  lemma {:induction false} LostWakeup(polls: seq<Event>)
    requires forall i: nat :: i < |polls| ==> polls[i] == Poll(0) || polls[i] == Poll(1)
    ensures Proper(2, Overtaken + polls) && Run(2, Overtaken + polls) == System(1, [Waiting(1), Waiting(1)])
  {
    if polls == [] {
      OvertakenRun();
      assert Overtaken + polls == Overtaken;
    } else {
      var before := polls[..|polls| - 1];
      LostWakeup(before);
      var es := Overtaken + polls;
      assert es[..|es| - 1] == Overtaken + before;
    }
  }

  // ---- Fair runs after a broadcast ----

  /** An infinite run: the state at every instant and the event that follows. */
  datatype Trace = Trace(state: nat -> System, event: nat -> Event)

  ghost predicate StepsAt(r: Trace, n: nat, i: nat)
  {
    |r.state(i).threads| == n && Fits(r.state(i), r.event(i)) && r.state(i + 1) == Step(r.state(i), r.event(i))
  }

  /** A run that goes on from a proper history and begins with a broadcast. */
  ghost predicate AfterBroadcast(r: Trace, n: nat, es: seq<Event>)
  {
    && n <= INT_MAX && Proper(n, es) && r.state(0) == Run(n, es) && r.event(0) == Broadcast
    && forall i: nat :: StepsAt(r, n, i)
  }

  /** A thread that waits is polled again and again. */
  ghost predicate Fair(r: Trace, n: nat)
  {
    forall t: nat, i: nat :: t < n ==> PolledOrGone(r, t, i)
  }

  ghost predicate PolledOrGone(r: Trace, t: nat, i: nat)
  {
    exists j: nat :: i <= j && (r.event(j) == Poll(t) || IsOutside(r, t, j))
  }

  ghost predicate IsOutside(r: Trace, t: nat, j: nat)
  {
    t < |r.state(j).threads| && r.state(j).threads[t] == Outside
  }

  ghost predicate Leaves(r: Trace, t: nat)
  {
    exists j: nat :: IsOutside(r, t, j)
  }

  /** How many threads arrive before instant i. */
  function ArrivalsUntil(r: Trace, i: nat): (n: nat)
  {
    if i == 0 then 0 else ArrivalsUntil(r, i - 1) + if r.event(i - 1).Arrive? then 1 else 0
  }

  lemma WrapNeverAbove(x: int)
    requires x >= INT_MIN
    ensures Wrap32(x) <= x
  {
  }

  /** After the broadcast the counter is at most the number of new arrivals. */
  lemma {:induction false} CounterBound(r: Trace, n: nat, es: seq<Event>, i: nat)
    requires AfterBroadcast(r, n, es)
    ensures INT_MIN <= r.state(i + 1).waiting <= ArrivalsUntil(r, i + 1)
    decreases i
  {
    assert StepsAt(r, n, i);
    if i > 0 {
      CounterBound(r, n, es, i - 1);
      WrapNeverAbove(r.state(i).waiting + 1);
    }
  }

  /** Until it leaves, a thread keeps its ticket. */
  lemma {:induction false} KeepsTicket(r: Trace, n: nat, es: seq<Event>, t: nat, j: nat)
    requires AfterBroadcast(r, n, es) && t < n == |r.state(0).threads| && r.state(0).threads[t].Waiting?
    ensures
      || (exists k: nat :: k <= j && IsOutside(r, t, k))
      || (|r.state(j).threads| == n && r.state(j).threads[t] == r.state(0).threads[t])
    decreases j
  {
    if j > 0 {
      KeepsTicket(r, n, es, t, j - 1);
      assert StepsAt(r, n, j - 1) && StepsAt(r, n, j);
      if !exists k: nat :: k <= j - 1 && IsOutside(r, t, k) {
        assert r.state(j).threads[t] == Outside ==> IsOutside(r, t, j);
      }
    }
  }

  /** A waiter with fewer later arrivals than its ticket leaves in every fair run; later broadcasts
      do no harm. */
  lemma BroadcastReleases(r: Trace, n: nat, es: seq<Event>, t: nat)
    requires AfterBroadcast(r, n, es) && Fair(r, n) && t < n == |r.state(0).threads| && r.state(0).threads[t].Waiting?
    requires forall i: nat :: ArrivalsUntil(r, i) < r.state(0).threads[t].id
    ensures Leaves(r, t)
  {
    assert PolledOrGone(r, t, 1);
    var j: nat :| 1 <= j && (r.event(j) == Poll(t) || IsOutside(r, t, j));
    KeepsTicket(r, n, es, t, j);
    if !exists k: nat :: IsOutside(r, t, k) {
      CounterBound(r, n, es, j - 1);
      assert ArrivalsUntil(r, j) < r.state(0).threads[t].id;
      assert StepsAt(r, n, j);
      assert IsOutside(r, t, j + 1);
    }
  }

  lemma {:induction false} NoArrivals(r: Trace, i: nat)
    requires forall j: nat :: !r.event(j).Arrive?
    ensures ArrivalsUntil(r, i) == 0
  {
    if i > 0 {
      NoArrivals(r, i - 1);
    }
  }

  /** With a fixed set of registered waiters, one broadcast releases all of them in every fair
      run. */
  lemma BroadcastReleasesAll(r: Trace, n: nat, es: seq<Event>)
    requires AfterBroadcast(r, n, es) && Fair(r, n) && forall j: nat :: !r.event(j).Arrive?
    ensures forall t: nat :: t < n ==> Leaves(r, t)
  {
    InvRun(n, es);
    forall t: nat | t < n ensures Leaves(r, t) {
      if r.state(0).threads[t].Waiting? {
        assert TicketOk(es, r.state(0).threads[t].id, t);
        forall i: nat ensures ArrivalsUntil(r, i) < r.state(0).threads[t].id {
          NoArrivals(r, i);
        }
        BroadcastReleases(r, n, es, t);
      } else {
        assert IsOutside(r, t, 0);
      }
    }
  }

  // ---- The counter in memory ----

  /** `simple_cv_t`, changed in place one atomic operation at a time. */
  class SimpleCv {
    var waiting: int

    /** `simple_cv_init`. */
    constructor ()
      ensures waiting == 0
    {
      waiting := 0;
    }

    /** The fetch-and-add of `simple_cv_wait`: the thread gets its ticket. */
    method TakeTicket(ghost c: System, ghost t: nat) returns (id: int)
      requires c.waiting == waiting && Fits(c, Arrive(t))
      modifies this
      ensures var c' := Step(c, Arrive(t)); waiting == c'.waiting && c'.threads[t] == Waiting(id)
    {
      var seen := waiting;
      waiting := Wrap32(waiting + 1);
      id := Wrap32(seen + 1);
    }

    /** One turn of its loop. */
    method PollOnce(ghost c: System, ghost t: nat, id: int) returns (leave: bool)
      requires c.waiting == waiting && Fits(c, Poll(t)) && c.threads[t].id == id
      ensures leave <==> Step(c, Poll(t)).threads[t] == Outside
      ensures Step(c, Poll(t)).waiting == waiting
    {
      leave := !(waiting >= id);
    }

    /** `simple_cv_broadcast`. */
    method BroadcastAll(ghost c: System)
      requires c.waiting == waiting
      modifies this
      ensures waiting == Step(c, Broadcast).waiting
    {
      waiting := 0;
    }
  }
}

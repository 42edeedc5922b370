/** Bringing up the application processors: each AP counts itself online and then waits on the boot
    condition (src/ap.c:19-33); the BSP waits until enough of them are online (src/acpi.c:355) and
    broadcasts once when it enters its own process loop (src/taskswitch.c:518). */
module ApBoot {
  import opened Int32
  import opened Sets
  import CondVar

  datatype Ap = Starting | Counted | Waiting(id: int) | Running

  datatype Bsp = Gate | Booting | Done

  datatype System = System(online: nat, waiting: int, aps: seq<Ap>, bsp: Bsp)

  datatype Actor = Boot | Proc(t: nat)

  predicate Exists(n: nat, a: Actor)
  {
    a.Proc? ==> a.t < n
  }

  /** One step; `quota` is the number of APs the BSP waits for, one less than the CPU limit. */
  function Step(quota: nat, c: System, a: Actor): (c': System)
    requires Exists(|c.aps|, a)
    ensures |c'.aps| == |c.aps|
  {
    match a
    case Proc(t) => (
      match c.aps[t]
      case Starting => c.(online := c.online + 1, aps := c.aps[t := Counted])
      case Counted =>
        var id := CondVar.Ticket(c.waiting);
        c.(waiting := id, aps := c.aps[t := Waiting(id)])
      case Waiting(id) => if CondVar.Passes(c.waiting, id) then c.(aps := c.aps[t := Running]) else c
      case Running => c)
    case Boot => (
      match c.bsp
      case Gate => if c.online >= quota then c.(bsp := Booting) else c
      case Booting => c.(waiting := 0, bsp := Done)
      case Done => c)
  }

  function Init(n: nat): (r: System)
  {
    System(0, 0, seq(n, t => Starting), Gate)
  }

  predicate Scheduled(n: nat, actors: seq<Actor>)
  {
    forall i: nat :: i < |actors| ==> Exists(n, actors[i])
  }

  function Run(quota: nat, c: System, actors: seq<Actor>): (c': System)
    requires Scheduled(|c.aps|, actors)
    ensures |c'.aps| == |c.aps|
  {
    if actors == [] then c
    else Step(quota, Run(quota, c, actors[..|actors| - 1]), actors[|actors| - 1])
  }

  // ---- What every run keeps ----

  /** The APs that have counted themselves online. */
  ghost function Online(c: System): (r: set<nat>)
  {
    set t: nat | t < |c.aps| && c.aps[t] != Starting
  }

  /** The APs that have taken a ticket. */
  ghost function Ticketed(c: System): (r: set<nat>)
  {
    set t: nat | t < |c.aps| && (c.aps[t].Waiting? || c.aps[t].Running?)
  }

  /** The counters match the APs.  Until the broadcast `waiting` is the number of tickets and no AP
      is running; after it, `waiting` counts only tickets taken since. */
  ghost predicate Inv(c: System)
  {
    && c.online == |Online(c)| && 0 <= c.waiting <= |Ticketed(c)|
    && (c.bsp != Done ==> c.waiting == |Ticketed(c)|)
    && (forall t: nat :: t < |c.aps| && c.aps[t].Running? ==> c.bsp == Done)
    && (forall t: nat :: t < |c.aps| && c.aps[t].Waiting? ==>
          c.aps[t].id >= 1 && (c.bsp != Done ==> c.aps[t].id <= c.waiting))
  }

  lemma SetsAfter(c: System, c': System, t: nat)
    requires t < |c.aps| == |c'.aps| && c'.aps == c.aps[t := c'.aps[t]]
    ensures Online(c') == if c'.aps[t] != Starting then Online(c) + {t} else Online(c) - {t}
    ensures Ticketed(c') == if c'.aps[t].Waiting? || c'.aps[t].Running? then Ticketed(c) + {t} else Ticketed(c) - {t}
    ensures t in Online(c) <==> c.aps[t] != Starting
    ensures t in Ticketed(c) <==> c.aps[t].Waiting? || c.aps[t].Running?
  {
  }

  /** A ticket is one more than the counter. */
  lemma NextTicket(c: System, t: nat)
    requires t < |c.aps| <= INT_MAX && c.aps[t] == Counted && 0 <= c.waiting <= |Ticketed(c)|
    ensures |Ticketed(c) + {t}| == |Ticketed(c)| + 1 <= |c.aps|
    ensures CondVar.Ticket(c.waiting) == c.waiting + 1
  {
    assert t !in Ticketed(c);
    SubsetSize(Ticketed(c) + {t}, |c.aps|);
    FitsInt32(c.waiting + 1);
  }

  lemma CountedSets(c: System, c': System, t: nat)
    requires t < |c.aps| && c.aps[t] == Starting && c'.aps == c.aps[t := Counted]
    ensures |Online(c')| == |Online(c)| + 1 && Ticketed(c') == Ticketed(c)
  {
    SetsAfter(c, c', t);
    OneMoreOrLess(Online(c), t);
  }

  lemma CountKeepsInv(c: System, c': System, t: nat)
    requires Inv(c) && t < |c.aps| && c.aps[t] == Starting
    requires c' == c.(online := c.online + 1, aps := c.aps[t := Counted])
    ensures Inv(c')
  {
    CountedSets(c, c', t);
  }

  lemma TicketKeepsInv(c: System, c': System, t: nat)
    requires Inv(c) && t < |c.aps| && c.aps[t] == Counted && |Ticketed(c) + {t}| == |Ticketed(c)| + 1
    requires c' == c.(waiting := c.waiting + 1, aps := c.aps[t := Waiting(c.waiting + 1)])
    ensures Inv(c')
  {
    SetsAfter(c, c', t);
    assert Online(c) + {t} == Online(c);
  }

  lemma PassKeepsInv(c: System, c': System, t: nat)
    requires Inv(c) && t < |c.aps| && c.aps[t].Waiting? && c.waiting < c.aps[t].id
    requires c' == c.(aps := c.aps[t := Running])
    ensures Inv(c')
  {
    SetsAfter(c, c', t);
    assert Online(c) + {t} == Online(c) && Ticketed(c) + {t} == Ticketed(c);
  }

  lemma ProcKeepsInv(quota: nat, c: System, t: nat)
    requires Inv(c) && t < |c.aps| <= INT_MAX
    ensures Inv(Step(quota, c, Proc(t)))
  {
    var c' := Step(quota, c, Proc(t));
    match c.aps[t]
    case Starting => CountKeepsInv(c, c', t);
    case Counted =>
      NextTicket(c, t);
      TicketKeepsInv(c, c', t);
    case Waiting(id) =>
      if CondVar.Passes(c.waiting, id) {
        PassKeepsInv(c, c', t);
      }
    case Running =>
  }

  lemma BootKeepsInv(quota: nat, c: System)
    requires Inv(c)
    ensures Inv(Step(quota, c, Boot))
  {
    var c' := Step(quota, c, Boot);
    assert Online(c') == Online(c) && Ticketed(c') == Ticketed(c);
  }

  lemma StepKeepsInv(quota: nat, c: System, a: Actor)
    requires Inv(c) && Exists(|c.aps|, a) && |c.aps| <= INT_MAX
    ensures Inv(Step(quota, c, a))
  {
    match a
    case Boot => BootKeepsInv(quota, c);
    case Proc(t) => ProcKeepsInv(quota, c, t);
  }

  lemma InitInv(n: nat)
    ensures Inv(Init(n))
  {
    assert Online(Init(n)) == {} && Ticketed(Init(n)) == {};
  }

  lemma {:induction false} RunKeepsInv(quota: nat, c: System, actors: seq<Actor>)
    requires Inv(c) && Scheduled(|c.aps|, actors) && |c.aps| <= INT_MAX
    ensures Inv(Run(quota, c, actors))
  {
    if actors != [] {
      RunKeepsInv(quota, c, actors[..|actors| - 1]);
      StepKeepsInv(quota, Run(quota, c, actors[..|actors| - 1]), actors[|actors| - 1]);
    }
  }

  /** In every run the tickets taken never exceed `aps_online`, which counts the APs that bumped it,
      and no AP reaches its process loop before the broadcast. */
  lemma TicketsWithinOnline(quota: nat, n: nat, actors: seq<Actor>)
    requires n <= INT_MAX && Scheduled(n, actors)
    ensures var c := Run(quota, Init(n), actors);
      && |Ticketed(c)| <= c.online == |Online(c)| <= n
      && (forall t: nat :: t < n && c.aps[t].Running? ==> c.bsp == Done)
  {
    InitInv(n);
    RunKeepsInv(quota, Init(n), actors);
    var c := Run(quota, Init(n), actors);
    SubsetSize(Online(c), n);
    Within(Ticketed(c), Online(c));
  }

  lemma {:induction false} Within(a: set<nat>, b: set<nat>)
    requires a <= b
    ensures |a| <= |b|
  {
    if t :| t in a {
      Within(a - {t}, b - {t});
    }
  }

  // ---- The gate ----

  /** The BSP leaves its gate in a step exactly when `quota` APs have counted themselves online. */
  lemma GateOpensIffOnline(quota: nat, c: System)
    requires Inv(c) && c.bsp == Gate
    ensures Step(quota, c, Boot).bsp != Gate <==> |Online(c)| >= quota
  {
  }

  /** In every run the BSP is past its gate, and so its broadcast comes, only after `quota` APs have
      counted themselves online; they stay so. */
  lemma {:induction false} PastGateMeansOnline(quota: nat, n: nat, actors: seq<Actor>)
    requires n <= INT_MAX && Scheduled(n, actors)
    ensures var c := Run(quota, Init(n), actors); c.bsp != Gate ==> |Online(c)| >= quota
  {
    InitInv(n);
    RunKeepsInv(quota, Init(n), actors);
    if actors != [] {
      var before := actors[..|actors| - 1];
      PastGateMeansOnline(quota, n, before);
      RunKeepsInv(quota, Init(n), before);
    }
  }

  // ---- An AP that is late ----

  /** The broadcast is over and AP t has no ticket, or one that the counter has reached. */
  predicate Late(c: System, t: nat)
  {
    && t < |c.aps| && c.bsp == Done
    && (c.aps[t] == Starting || c.aps[t] == Counted || (c.aps[t].Waiting? && c.aps[t].id <= c.waiting))
  }

  /** There being no other broadcast, it is late for ever. */
  lemma StepKeepsLate(quota: nat, c: System, a: Actor, t: nat)
    requires Inv(c) && Exists(|c.aps|, a) && |c.aps| <= INT_MAX && Late(c, t)
    ensures Late(Step(quota, c, a), t)
  {
    if a.Proc? && c.aps[a.t] == Counted {
      NextTicket(c, a.t);
    }
  }

  lemma {:induction false} LateForEver(quota: nat, c: System, actors: seq<Actor>, t: nat)
    requires Inv(c) && Scheduled(|c.aps|, actors) && |c.aps| <= INT_MAX && Late(c, t)
    ensures Late(Run(quota, c, actors), t) && !Run(quota, c, actors).aps[t].Running?
  {
    if actors != [] {
      var before := actors[..|actors| - 1];
      LateForEver(quota, c, before, t);
      RunKeepsInv(quota, c, before);
      StepKeepsLate(quota, Run(quota, c, before), actors[|actors| - 1], t);
    }
  }

  // ---- The gate does not wait for the tickets ----

  function AllBump(k: nat): (actors: seq<Actor>)
    ensures Scheduled(k, actors)
  {
    if k == 0 then [] else AllBump(k - 1) + [Proc(k - 1)]
  }

  function FirstCounted(n: nat, k: nat): (r: System)
  {
    System(k, 0, seq(n, t => if t < k then Counted else Starting), Gate)
  }

  lemma RunOneMore(quota: nat, c: System, actors: seq<Actor>, a: Actor)
    requires Scheduled(|c.aps|, actors) && Exists(|c.aps|, a)
    ensures Scheduled(|c.aps|, actors + [a])
    ensures Run(quota, c, actors + [a]) == Step(quota, Run(quota, c, actors), a)
  {
    assert (actors + [a])[..|actors|] == actors;
  }

  lemma {:induction false} BumpRun(quota: nat, n: nat, k: nat)
    requires k <= n
    ensures Run(quota, Init(n), AllBump(k)) == FirstCounted(n, k)
    decreases k
  {
    if k == 0 {
      assert Init(n).aps == FirstCounted(n, 0).aps;
    } else {
      BumpRun(quota, n, k - 1);
      RunOneMore(quota, Init(n), AllBump(k - 1), Proc(k - 1));
      BumpOne(quota, n, k - 1);
    }
  }

  lemma BumpOne(quota: nat, n: nat, k: nat)
    requires k < n
    ensures Step(quota, FirstCounted(n, k), Proc(k)) == FirstCounted(n, k + 1)
  {
    var c := FirstCounted(n, k);
    assert c.aps[k] == Starting;
    assert c.aps[k := Counted] == FirstCounted(n, k + 1).aps;
  }

  /** "All online" does not mean "all registered": whenever the gate can open at all, there is a run
      in which every AP is online and the broadcast comes before the first ticket, so that no AP
      ever gets through. */
  lemma OnlineIsNotRegistered(quota: nat, n: nat)
    requires quota <= n <= INT_MAX
    ensures exists actors :: Scheduled(n, actors) && NobodyEver(quota, n, actors)
  {
    var a := AllBump(n);
    var actors := a + [Boot] + [Boot];
    BumpRun(quota, n, n);
    RunOneMore(quota, Init(n), a, Boot);
    RunOneMore(quota, Init(n), a + [Boot], Boot);
    var c := Run(quota, Init(n), actors);
    assert c == FirstCounted(n, n).(bsp := Done);
    InitInv(n);
    RunKeepsInv(quota, Init(n), actors);
    forall t: nat, more | t < n && Scheduled(n, more) ensures !Run(quota, c, more).aps[t].Running? {
      LateForEver(quota, c, more, t);
    }
  }

  /** After these steps every AP is online and the broadcast is over, and no continuation lets any
      AP through. */
  ghost predicate NobodyEver(quota: nat, n: nat, actors: seq<Actor>)
    requires Scheduled(n, actors)
  {
    var c := Run(quota, Init(n), actors);
    && c.online == n && c.bsp == Done
    && forall t: nat, more :: t < n && Scheduled(n, more) ==> !Run(quota, c, more).aps[t].Running?
  }

  // ---- Fair runs ----

  datatype Trace = Trace(state: nat -> System, actor: nat -> Actor)

  ghost predicate StepsAt(r: Trace, quota: nat, n: nat, i: nat)
  {
    |r.state(i).aps| == n && Exists(n, r.actor(i)) && r.state(i + 1) == Step(quota, r.state(i), r.actor(i))
  }

  ghost predicate IsRun(r: Trace, quota: nat, n: nat)
  {
    n <= INT_MAX && r.state(0) == Init(n) && forall i: nat :: StepsAt(r, quota, n, i)
  }

  ghost predicate ActsFrom(r: Trace, a: Actor, i: nat)
  {
    exists j: nat :: i <= j && r.actor(j) == a
  }

  /** The BSP and every AP act again and again. */
  ghost predicate Fair(r: Trace, n: nat)
  {
    forall a: Actor, i: nat :: Exists(n, a) ==> ActsFrom(r, a, i)
  }

  lemma {:induction false} InvAt(r: Trace, quota: nat, n: nat, i: nat)
    requires IsRun(r, quota, n)
    ensures |r.state(i).aps| == n && Inv(r.state(i))
    decreases i
  {
    if i == 0 {
      InitInv(n);
    } else {
      InvAt(r, quota, n, i - 1);
      assert StepsAt(r, quota, n, i - 1);
      StepKeepsInv(quota, r.state(i - 1), r.actor(i - 1));
    }
  }

  /** How far the BSP has come. */
  function Rank(b: Bsp): (r: nat)
  {
    match b
    case Gate => 0
    case Booting => 1
    case Done => 2
  }

  lemma {:induction false} NeverBack(r: Trace, quota: nat, n: nat, i: nat, j: nat)
    requires IsRun(r, quota, n) && i <= j
    ensures Rank(r.state(i).bsp) <= Rank(r.state(j).bsp) && |r.state(i).aps| == |r.state(j).aps| == n
    ensures forall t: nat :: t < n && r.state(i).aps[t] != Starting ==> r.state(j).aps[t] != Starting
    decreases j
  {
    assert StepsAt(r, quota, n, j);
    if i < j {
      NeverBack(r, quota, n, i, j - 1);
      assert StepsAt(r, quota, n, j - 1);
    }
  }

  // ---- When the gate opens ----

  lemma {:induction false} GateStaysShut(r: Trace, quota: nat, n: nat, i: nat)
    requires IsRun(r, quota, n) && quota > n
    ensures r.state(i).bsp == Gate
    decreases i
  {
    if i > 0 {
      GateStaysShut(r, quota, n, i - 1);
      InvAt(r, quota, n, i - 1);
      SubsetSize(Online(r.state(i - 1)), n);
      assert StepsAt(r, quota, n, i - 1);
    }
  }

  lemma {:induction false} AllCountThemselves(r: Trace, quota: nat, n: nat, k: nat) returns (i: nat)
    requires IsRun(r, quota, n) && Fair(r, n) && k <= n
    ensures |r.state(i).aps| == n && forall t: nat :: t < k ==> r.state(i).aps[t] != Starting
    decreases k
  {
    if k == 0 {
      i := 0;
    } else {
      var i0 := AllCountThemselves(r, quota, n, k - 1);
      assert ActsFrom(r, Proc(k - 1), i0);
      var j: nat :| i0 <= j && r.actor(j) == Proc(k - 1);
      NeverBack(r, quota, n, i0, j);
      NeverBack(r, quota, n, j, j + 1);
      assert StepsAt(r, quota, n, j) && StepsAt(r, quota, n, j + 1);
      i := j + 1;
    }
  }

  lemma BroadcastComes(r: Trace, quota: nat, n: nat) returns (b: nat)
    requires IsRun(r, quota, n) && Fair(r, n) && quota <= n
    ensures r.state(b).bsp == Done
  {
    var i := AllCountThemselves(r, quota, n, n);
    assert ActsFrom(r, Boot, i);
    var j: nat :| i <= j && r.actor(j) == Boot;
    NeverBack(r, quota, n, i, j);
    InvAt(r, quota, n, j);
    SupersetSize(Online(r.state(j)), n);
    assert StepsAt(r, quota, n, j);
    assert ActsFrom(r, Boot, j + 1);
    var k: nat :| j + 1 <= k && r.actor(k) == Boot;
    NeverBack(r, quota, n, j + 1, k);
    assert StepsAt(r, quota, n, k);
    b := k + 1;
  }

  ghost predicate Broadcasts(r: Trace)
  {
    exists b: nat :: r.state(b).bsp == Done
  }

  /** In every fair run the BSP gets to its broadcast exactly when it waits for no more APs than
      were started. */
  lemma BroadcastsIffQuotaMet(r: Trace, quota: nat, n: nat)
    requires IsRun(r, quota, n) && Fair(r, n)
    ensures Broadcasts(r) <==> quota <= n
  {
    if quota <= n {
      var b := BroadcastComes(r, quota, n);
    } else {
      forall b: nat ensures r.state(b).bsp != Done {
        GateStaysShut(r, quota, n, b);
      }
    }
  }

  // ---- Who gets through ----

  ghost predicate GetsThrough(r: Trace, t: nat)
  {
    exists j: nat :: t < |r.state(j).aps| && r.state(j).aps[t] == Running
  }

  /** All tickets were taken before the broadcast. */
  ghost predicate AllIn(c: System)
  {
    && c.bsp == Done && c.waiting == 0
    && forall t: nat :: t < |c.aps| ==> c.aps[t] == Running || (c.aps[t].Waiting? && c.aps[t].id >= 1)
  }

  lemma {:induction false} AllInStays(r: Trace, quota: nat, n: nat, i: nat, j: nat)
    requires IsRun(r, quota, n) && i <= j && AllIn(r.state(i))
    ensures AllIn(r.state(j))
    decreases j
  {
    if i < j {
      AllInStays(r, quota, n, i, j - 1);
      assert StepsAt(r, quota, n, j - 1);
    }
  }

  lemma AllInGetThrough(r: Trace, quota: nat, n: nat, i: nat, t: nat)
    requires IsRun(r, quota, n) && Fair(r, n) && AllIn(r.state(i)) && t < n
    ensures GetsThrough(r, t)
  {
    assert ActsFrom(r, Proc(t), i);
    var j: nat :| i <= j && r.actor(j) == Proc(t);
    AllInStays(r, quota, n, i, j);
    assert StepsAt(r, quota, n, j) && StepsAt(r, quota, n, j + 1);
    assert r.state(j + 1).aps[t] == Running;
  }

  lemma {:induction false} LateStays(r: Trace, quota: nat, n: nat, i: nat, j: nat, t: nat)
    requires IsRun(r, quota, n) && i <= j && Late(r.state(i), t)
    ensures Late(r.state(j), t)
    decreases j
  {
    if i < j {
      LateStays(r, quota, n, i, j - 1, t);
      InvAt(r, quota, n, j - 1);
      assert StepsAt(r, quota, n, j - 1);
      StepKeepsLate(quota, r.state(j - 1), r.actor(j - 1), t);
    }
  }

  /** The BSP broadcasts at instant b. */
  ghost predicate BroadcastAt(r: Trace, b: nat)
  {
    r.state(b).bsp == Booting && r.actor(b) == Boot
  }

  /** An AP without a ticket at the broadcast never gets through. */
  lemma LateNeverThrough(r: Trace, quota: nat, n: nat, b: nat, t: nat)
    requires IsRun(r, quota, n) && BroadcastAt(r, b) && t < n == |r.state(b).aps| && !r.state(b).aps[t].Waiting?
    ensures !GetsThrough(r, t)
  {
    InvAt(r, quota, n, b);
    assert StepsAt(r, quota, n, b);
    assert Late(r.state(b + 1), t);
    forall j: nat | t < |r.state(j).aps| ensures r.state(j).aps[t] != Running {
      InvAt(r, quota, n, j);
      if j <= b {
        NeverBack(r, quota, n, j, b);
      } else {
        LateStays(r, quota, n, b + 1, j, t);
      }
    }
  }

  /** In every fair run all APs get through exactly when all of them had their tickets at the
      broadcast. */
  lemma AllThroughIffAllTicketed(r: Trace, quota: nat, n: nat, b: nat)
    requires IsRun(r, quota, n) && Fair(r, n) && BroadcastAt(r, b) && |r.state(b).aps| == n
    ensures (forall t: nat :: t < n ==> GetsThrough(r, t)) <==> forall t: nat :: t < n ==> r.state(b).aps[t].Waiting?
  {
    if forall t: nat :: t < n ==> r.state(b).aps[t].Waiting? {
      InvAt(r, quota, n, b);
      assert StepsAt(r, quota, n, b);
      assert AllIn(r.state(b + 1));
      forall t: nat | t < n ensures GetsThrough(r, t) {
        AllInGetThrough(r, quota, n, b + 1, t);
      }
    } else {
      var t: nat :| t < n && !r.state(b).aps[t].Waiting?;
      LateNeverThrough(r, quota, n, b, t);
    }
  }

  // ---- The protocol in memory ----

  /** `aps_online`, `boot_condition` and where every processor stands, changed in place. */
  class Machine {
    const quota: nat
    var online: nat
    var bootCondition: CondVar.SimpleCv
    var aps: seq<Ap>
    var bsp: Bsp

    ghost function Snapshot(): (r: System)
      reads this, bootCondition
    {
      System(online, bootCondition.waiting, aps, bsp)
    }

    constructor (quota: nat, n: nat)
      ensures this.quota == quota && fresh(bootCondition) && Snapshot() == Init(n)
    {
      this.quota := quota;
      online := 0;
      bootCondition := new CondVar.SimpleCv();
      aps := seq(n, t => Starting);
      bsp := Gate;
    }

    /** The next step of AP t: count itself online, take a ticket, or poll. */
    method ProcStep(t: nat)
      requires t < |aps|
      modifies this, bootCondition
      ensures bootCondition == old(bootCondition) && Snapshot() == Step(quota, old(Snapshot()), Proc(t))
    {
      match aps[t] {
        case Starting =>
          online := online + 1;
          aps := aps[t := Counted];
        case Counted =>
          var id := bootCondition.TakeTicket(CondVar.System(bootCondition.waiting, [CondVar.Outside]), 0);
          aps := aps[t := Waiting(id)];
        case Waiting(id) =>
          var leave := bootCondition.PollOnce(CondVar.System(bootCondition.waiting, [CondVar.Waiting(id)]), 0, id);
          if leave {
            aps := aps[t := Running];
          }
        case Running =>
      }
    }

    /** The next step of the BSP: wait at its gate, then broadcast once. */
    method BootStep()
      modifies this, bootCondition
      ensures bootCondition == old(bootCondition) && online == old(online) && aps == old(aps)
      ensures old(bsp) == Gate ==> (bsp == Gate <==> online < quota) && bsp != Done
      ensures old(bsp) == Booting ==> bsp == Done && bootCondition.waiting == 0
      ensures old(bsp) != Booting ==> bootCondition.waiting == old(bootCondition.waiting)
      ensures Snapshot() == Step(quota, old(Snapshot()), Boot)
    {
      match bsp {
        case Gate =>
          if online >= quota {
            bsp := Booting;
          }
        case Booting =>
          bootCondition.BroadcastAll(CondVar.System(bootCondition.waiting, []));
          bsp := Done;
        case Done =>
      }
    }

    /** Any schedule in place is the run of the model. */
    method Execute(actors: seq<Actor>)
      requires Scheduled(|aps|, actors)
      modifies this, bootCondition
      ensures bootCondition == old(bootCondition) && Snapshot() == Run(quota, old(Snapshot()), actors)
    {
      ghost var c := Snapshot();
      for i := 0 to |actors|
        invariant bootCondition == old(bootCondition) && |aps| == |c.aps| && Snapshot() == Run(quota, c, actors[..i])
      {
        match actors[i] {
          case Boot => BootStep();
          case Proc(t) => ProcStep(t);
        }
        assert actors[..i + 1][..i] == actors[..i];
      }
      assert actors[..|actors|] == actors;
    }
  }
}

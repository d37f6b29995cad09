/**
 The mutex of ipc.c with the RT_IPC_FLAG_PRIO queue: recursive holding, priority inheritance and
 hand-over to the most urgent waiter. Every step is one region with interrupts disabled, or a timeout.
 */
module Mutex {
  import opened Lists
  import opened WaitList

  const NOBODY: int := -1
  const HOLD_MAX: nat := 255     // hold is a byte

  datatype Mutex = Mutex(
    value: int, hold: nat, owner: int, originalPriority: nat,
    waiters: seq<Tid>,           // parent.suspend_thread
    prio: Priorities)            // current_priority of all threads

  datatype Result = Taken | Waiting | Failed | Released | NoResult

  datatype Event = Take(t: Tid, time: int) | Release(t: Tid) | Timeout(t: Tid)

  /** RT_THREAD_CTRL_CHANGE_PRIORITY */
  function Changed(prio: Priorities, t: Tid, p: nat): Priorities { (u: Tid) => if u == t then p else prio(u) }

  function Init(prio: Priorities): Mutex { Mutex(1, 0, NOBODY, 0xFF, [], prio) }

  /** rt_mutex_take up to its suspension or return */
  function TakeStep(s: Mutex, t: Tid, time: int): (Mutex, Result) {
    if s.owner == t then (s.(hold := s.hold + 1), Taken)
    else if s.value > 0 then
      (s.(value := s.value - 1, owner := t, originalPriority := s.prio(t), hold := s.hold + 1), Taken)
    else if time == 0 then (s, Failed)
    else
      var prio: Priorities := if s.owner >= 0 && s.prio(t) < s.prio(s.owner) then Changed(s.prio, s.owner, s.prio(t))
        else s.prio;
      (s.(prio := prio, waiters := Queued(s.waiters, t, PRIO, prio)), Waiting)
  }

  /** rt_mutex_release */
  function ReleaseStep(s: Mutex, t: Tid): (Mutex, Result) {
    if s.owner != t then (s, Failed)
    else if s.hold > 1 then (s.(hold := s.hold - 1), Released)
    else
      var prio: Priorities := if s.originalPriority != s.prio(t) then Changed(s.prio, t, s.originalPriority)
        else s.prio;
      if s.waiters != [] then
        var next := s.waiters[0];
        (s.(prio := prio, owner := next, originalPriority := prio(next), hold := 1, waiters := s.waiters[1..]),
          Released)
      else (s.(prio := prio, value := s.value + 1, owner := NOBODY, originalPriority := 0xFF, hold := 0), Released)
  }

  ghost predicate Enabled(s: Mutex, e: Event) {
    match e
    case Take(t, _) => t !in s.waiters && (s.owner == t ==> s.hold < HOLD_MAX)
    case Release(t) => t !in s.waiters
    case Timeout(t) => t in s.waiters
  }

  function Step(s: Mutex, e: Event): (Mutex, Result) {
    match e
    case Take(t, time) => TakeStep(s, t, time)
    case Release(t) => ReleaseStep(s, t)
    case Timeout(t) => (s.(waiters := Without(s.waiters, t)), NoResult)
  }

  // ---------- the invariant ----------

  /** base: the priorities the threads have on their own. */
  ghost predicate Inv(s: Mutex, base: Priorities) {
    && (s.value == 1 || s.value == 0)
    && (s.value == 1 <==> s.owner == NOBODY) && (s.owner == NOBODY <==> s.hold == 0) && s.owner >= NOBODY
      && s.hold <= HOLD_MAX
    && (s.owner == NOBODY ==> s.waiters == [])
    && Distinct(s.waiters) && s.owner !in s.waiters && Sorted(s.waiters, s.prio)
    && (forall t: Tid :: t != s.owner ==> s.prio(t) == base(t))
    && (s.owner >= 0 ==> s.originalPriority == base(s.owner) && s.prio(s.owner) <= base(s.owner))
    && (s.owner >= 0 ==> forall t :: t in s.waiters ==> s.prio(s.owner) <= s.prio(t))
  }

  lemma SortedSame(list: seq<Tid>, prio: Priorities, prio': Priorities)
    requires Sorted(list, prio) && forall t :: t in list ==> prio'(t) == prio(t)
    ensures Sorted(list, prio')
  {
    forall i | 0 <= i < |list|
      ensures prio'(list[i]) == prio(list[i])
    {
      assert list[i] in list;
    }
  }

  lemma TakeKeeps(s: Mutex, t: Tid, time: int, base: Priorities)
    requires Inv(s, base) && Enabled(s, Take(t, time))
    ensures Inv(TakeStep(s, t, time).0, base)
  {
    hide Queued, Distinct, Sorted;
    if s.owner != t && s.value <= 0 && time != 0 {
      var prio: Priorities := if s.prio(t) < s.prio(s.owner) then Changed(s.prio, s.owner, s.prio(t)) else s.prio;
      assert forall u: Tid :: u in s.waiters ==> prio(u) == s.prio(u);
      SortedSame(s.waiters, s.prio, prio);
      QueuedSorted(s.waiters, t, prio);
      QueuedMembers(s.waiters, t, PRIO, prio);
    }
  }

  lemma TailSorted(list: seq<Tid>, prio: Priorities)
    requires Sorted(list, prio) && Distinct(list) && list != []
    ensures Sorted(list[1..], prio) && Distinct(list[1..]) && list[0] !in list[1..]
    ensures forall t :: t in list ==> prio(list[0]) <= prio(t)
    ensures forall t :: t in list[1..] ==> t in list
  {
  }

  lemma ReleaseKeeps(s: Mutex, t: Tid, base: Priorities)
    requires Inv(s, base) && Enabled(s, Release(t))
    ensures Inv(ReleaseStep(s, t).0, base)
  {
    hide Distinct, Sorted;
    if s.owner == t && s.hold <= 1 {
      var prio: Priorities := if s.originalPriority != s.prio(t) then Changed(s.prio, t, s.originalPriority)
        else s.prio;
      assert forall u: Tid :: u in s.waiters ==> prio(u) == s.prio(u);
      SortedSame(s.waiters, s.prio, prio);
      if s.waiters != [] {
        TailSorted(s.waiters, prio);
      }
    }
  }

  lemma StepKeeps(s: Mutex, e: Event, base: Priorities)
    requires Inv(s, base) && Enabled(s, e)
    ensures Inv(Step(s, e).0, base)
  {
    hide TakeStep, ReleaseStep, Without;
    match e
    case Take(t, time) => TakeKeeps(s, t, time, base);
    case Release(t) => ReleaseKeeps(s, t, base);
    case Timeout(t) =>
      WithoutMembers(s.waiters, t);
      WithoutSorted(s.waiters, t, s.prio);
  }

  // ---------- runs ----------

  ghost predicate Runs(s: Mutex, es: seq<Event>)
    decreases es
  {
    es != [] ==> Enabled(s, es[0]) && Runs(Step(s, es[0]).0, es[1..])
  }

  function Final(s: Mutex, es: seq<Event>): Mutex
    decreases es
  {
    if es == [] then s else Final(Step(s, es[0]).0, es[1..])
  }

  lemma {:induction false} RunKeeps(s: Mutex, es: seq<Event>, base: Priorities)
    requires Inv(s, base) && Runs(s, es)
    ensures Inv(Final(s, es), base)
    decreases es
  {
    hide Step, Inv, Enabled;
    if es != [] {
      StepKeeps(s, es[0], base);
      RunKeeps(Step(s, es[0]).0, es[1..], base);
    }
  }

  // ---------- first come, first served among equals ----------

  type Arrivals = Tid -> nat

  /** Whoever starts to wait does so at this time of the clock, which counts steps. */
  function Arrived(s: Mutex, e: Event, at: Arrivals, clock: nat): Arrivals {
    if e.Take? && TakeStep(s, e.t, e.time).1 == Waiting then (u: Tid) => if u == e.t then clock else at(u) else at
  }

  /** The time each thread last started to wait in a run. */
  function ArrivedIn(s: Mutex, es: seq<Event>, at: Arrivals, clock: nat): Arrivals
    decreases es
  {
    if es == [] then at else ArrivedIn(Step(s, es[0]).0, es[1..], Arrived(s, es[0], at, clock), clock + 1)
  }

  /** Of two waiters equally urgent, the one in front came first. */
  ghost predicate Fifo(waiters: seq<Tid>, prio: Priorities, at: Arrivals) {
    forall i, j :: 0 <= i < j < |waiters| && prio(waiters[i]) == prio(waiters[j]) ==> at(waiters[i]) < at(waiters[j])
  }

  ghost predicate Past(waiters: seq<Tid>, at: Arrivals, clock: nat) { forall t :: t in waiters ==> at(t) < clock }

  lemma FifoSame(list: seq<Tid>, prio: Priorities, prio': Priorities, at: Arrivals, at': Arrivals)
    requires Fifo(list, prio, at) && forall t :: t in list ==> prio'(t) == prio(t) && at'(t) == at(t)
    ensures Fifo(list, prio', at')
  {
    forall i | 0 <= i < |list|
      ensures prio'(list[i]) == prio(list[i]) && at'(list[i]) == at(list[i])
    {
      assert list[i] in list;
    }
  }

  lemma FifoQueued(list: seq<Tid>, t: Tid, prio: Priorities, at: Arrivals, clock: nat)
    requires Fifo(list, prio, at) && Past(list, at, clock) && Sorted(list, prio) && at(t) == clock
    ensures Fifo(Queued(list, t, PRIO, prio), prio, at)
  {
    var k, q := Place(list, t, PRIO, prio), Queued(list, t, PRIO, prio);
    PlaceSplits(list, prio(t), prio);
    QueuedIndex(list, t, PRIO, prio);
    hide Queued, Place, Position;
    forall i, j | 0 <= i < j < |q| && prio(q[i]) == prio(q[j])
      ensures at(q[i]) < at(q[j])
    {
    }
  }

  lemma {:induction false} FifoWithout(list: seq<Tid>, t: Tid, prio: Priorities, at: Arrivals)
    requires Fifo(list, prio, at) && Distinct(list)
    ensures Fifo(Without(list, t), prio, at)
  {
    if list != [] && list[0] != t {
      FifoWithout(list[1..], t, prio, at);
      WithoutMembers(list[1..], t);
      var rest := Without(list[1..], t);
      forall j | 0 <= j < |rest| && prio(list[0]) == prio(rest[j])
        ensures at(list[0]) < at(rest[j])
      {
        assert rest[j] in list[1..];
        var i :| 1 <= i < |list| && list[i] == rest[j];
      }
    }
  }

  lemma TakeFifo(s: Mutex, t: Tid, time: int, base: Priorities, at: Arrivals, clock: nat)
    requires Inv(s, base) && Enabled(s, Take(t, time)) && Fifo(s.waiters, s.prio, at) && Past(s.waiters, at, clock)
    ensures var s' := TakeStep(s, t, time).0; var at' := Arrived(s, Take(t, time), at, clock);
      Fifo(s'.waiters, s'.prio, at') && Past(s'.waiters, at', clock + 1)
  {
    hide Fifo, Queued, Distinct, Sorted;
    var s', at' := TakeStep(s, t, time).0, Arrived(s, Take(t, time), at, clock);
    FifoSame(s.waiters, s.prio, s'.prio, at, at');
    if TakeStep(s, t, time).1 == Waiting {
      SortedSame(s.waiters, s.prio, s'.prio);
      FifoQueued(s.waiters, t, s'.prio, at', clock);
      QueuedMembers(s.waiters, t, PRIO, s'.prio);
    }
  }

  lemma StepFifo(s: Mutex, e: Event, base: Priorities, at: Arrivals, clock: nat)
    requires Inv(s, base) && Enabled(s, e) && Fifo(s.waiters, s.prio, at) && Past(s.waiters, at, clock)
    ensures var s' := Step(s, e).0; var at' := Arrived(s, e, at, clock);
      Fifo(s'.waiters, s'.prio, at') && Past(s'.waiters, at', clock + 1)
  {
    hide Sorted;
    match e
    case Take(t, time) => TakeFifo(s, t, time, base, at, clock);
    case Release(t) =>
      var s' := ReleaseStep(s, t).0;
      FifoSame(s.waiters, s.prio, s'.prio, at, at);
    case Timeout(t) =>
      FifoWithout(s.waiters, t, s.prio, at);
      WithoutMembers(s.waiters, t);
  }

  lemma {:induction false} RunFifo(s: Mutex, es: seq<Event>, base: Priorities, at: Arrivals, clock: nat)
    requires Inv(s, base) && Runs(s, es) && Fifo(s.waiters, s.prio, at) && Past(s.waiters, at, clock)
    ensures Fifo(Final(s, es).waiters, Final(s, es).prio, ArrivedIn(s, es, at, clock))
    decreases es
  {
    hide Step, Inv, Enabled, Fifo, Past, Arrived;
    if es != [] {
      StepKeeps(s, es[0], base);
      StepFifo(s, es[0], base, at, clock);
      RunFifo(Step(s, es[0]).0, es[1..], base, Arrived(s, es[0], at, clock), clock + 1);
    }
  }

  /**
   In every reachable state: value is 1 exactly when nobody owns the mutex, exactly when hold is 0, and then nobody
   waits; waiters stand in order of urgency, equally urgent ones in order of arrival; the owner is at least as urgent
   as every waiter and as it is on its own; all others have their own priority.
   */
  lemma MutexInvariant(es: seq<Event>, base: Priorities)
    requires Runs(Init(base), es)
    ensures var s := Final(Init(base), es);
      && (s.value == 1 <==> s.owner == NOBODY) && (s.owner == NOBODY <==> s.hold == 0)
        && (s.owner == NOBODY ==> s.waiters == [])
      && Sorted(s.waiters, s.prio) && Fifo(s.waiters, s.prio, ArrivedIn(Init(base), es, _ => 0, 0))
      && (s.owner >= 0 ==> s.prio(s.owner) <= base(s.owner) && forall t :: t in s.waiters ==>
        s.prio(s.owner) <= s.prio(t))
      && (forall t: Tid :: t != s.owner ==> s.prio(t) == base(t))
  {
    RunKeeps(Init(base), es, base);
    RunFifo(Init(base), es, base, _ => 0, 0);
  }

  /**
   The last release, in any reachable state: the owner has its own priority back, and the mutex goes to the most
   urgent waiter, of several to the one that has waited longest.
   */
  lemma LastRelease(es: seq<Event>, t: Tid, base: Priorities)
    requires Runs(Init(base), es) && Final(Init(base), es).owner == t && Final(Init(base), es).hold == 1
    ensures var s, at := Final(Init(base), es), ArrivedIn(Init(base), es, _ => 0, 0); var s' := ReleaseStep(s, t).0;
      && s'.prio(t) == base(t) && (forall u: Tid :: s'.prio(u) == base(u))
      && (s.waiters == [] ==> s'.owner == NOBODY && s'.value == 1)
      && (s.waiters != [] ==>
            && s'.owner in s.waiters && s'.hold == 1 && s'.value == 0 && s'.waiters == s.waiters[1..]
            && forall u :: u in s.waiters && u != s'.owner ==>
                 s'.prio(s'.owner) < s'.prio(u) || (s'.prio(s'.owner) == s'.prio(u) && at(s'.owner) < at(u)))
  {
    RunKeeps(Init(base), es, base);
    RunFifo(Init(base), es, base, _ => 0, 0);
    var s, at := Final(Init(base), es), ArrivedIn(Init(base), es, _ => 0, 0);
    hide Runs, Final, ArrivedIn;
    if s.waiters != [] {
      FirstServed(s.waiters, s.prio, at);
    }
  }

  /** The head of a sorted queue precedes all others, by urgency or else by arrival. */
  lemma FirstServed(list: seq<Tid>, prio: Priorities, at: Arrivals)
    requires Sorted(list, prio) && Fifo(list, prio, at) && Distinct(list) && list != []
    ensures forall u :: u in list && u != list[0] ==>
      prio(list[0]) < prio(u) || (prio(list[0]) == prio(u) && at(list[0]) < at(u))
  {
    forall u | u in list && u != list[0]
      ensures prio(list[0]) < prio(u) || (prio(list[0]) == prio(u) && at(list[0]) < at(u))
    {
      var i :| 0 < i < |list| && list[i] == u;
    }
  }

  /** A waiting thread is queued behind all waiters as urgent as itself, and its urgency goes to the owner at once. */
  lemma TakeInherits(s: Mutex, t: Tid, time: int, base: Priorities)
    requires Inv(s, base) && t !in s.waiters && TakeStep(s, t, time).1 == Waiting
    ensures var s' := TakeStep(s, t, time).0; var k := Position(s.waiters, s.prio(t), s.prio);
      && s'.owner == s.owner >= 0 && s'.prio(s.owner) == (if s.prio(t) < s.prio(s.owner) then s.prio(t)
        else s.prio(s.owner))
      && s'.waiters == s.waiters[..k] + [t] + s.waiters[k..]
      && forall i :: 0 <= i < |s.waiters| ==> (s.prio(s.waiters[i]) <= s.prio(t) <==> i < k)
  {
    var s' := TakeStep(s, t, time).0;
    PositionSame(s.waiters, s.prio(t), s.prio, s'.prio);
    QueuedSorted(s.waiters, t, s.prio);
  }

  lemma {:induction false} PositionSame(list: seq<Tid>, p: nat, prio: Priorities, prio': Priorities)
    requires forall t :: t in list ==> prio'(t) == prio(t)
    ensures Position(list, p, prio') == Position(list, p, prio)
  {
    if list != [] {
      assert list[0] in list && forall t :: t in list[1..] ==> t in list;
      PositionSame(list[1..], p, prio, prio');
    }
  }

  // ---------- is the owner as urgent as it should be, and no more? ----------

  /** The owner runs at the more urgent of its own priority and its most urgent waiter's. */
  ghost predicate Exact(s: Mutex, base: Priorities) {
    s.owner >= 0 ==> s.prio(s.owner) == base(s.owner) || exists w :: w in s.waiters && s.prio(w) == s.prio(s.owner)
  }

  /** The owner need not lose urgency when t stops waiting. */
  ghost predicate NotTheReason(s: Mutex, t: Tid, base: Priorities) {
    || s.owner < 0 || s.prio(s.owner) == base(s.owner) || s.prio(t) > s.prio(s.owner)
    || exists w :: w in s.waiters && w != t && s.prio(w) == s.prio(t)
  }

  lemma TakeExact(s: Mutex, t: Tid, time: int, base: Priorities)
    requires Inv(s, base) && Enabled(s, Take(t, time)) && Exact(s, base)
    ensures Exact(TakeStep(s, t, time).0, base)
  {
    hide Queued, Distinct, Sorted;
    var s' := TakeStep(s, t, time).0;
    QueuedMembers(s.waiters, t, PRIO, s'.prio);
  }

  lemma ReleaseExact(s: Mutex, t: Tid, base: Priorities)
    requires Inv(s, base) && Enabled(s, Release(t)) && Exact(s, base)
    ensures Exact(ReleaseStep(s, t).0, base)
  {
    hide Distinct, Sorted;
    assert s.waiters != [] ==> s.waiters[0] in s.waiters;
  }

  /** A timeout is the one step that can leave the owner too urgent; exactly when it does. */
  lemma TimeoutExact(s: Mutex, t: Tid, base: Priorities)
    requires Inv(s, base) && Enabled(s, Timeout(t)) && Exact(s, base)
    ensures Exact(Step(s, Timeout(t)).0, base) <==> NotTheReason(s, t, base)
  {
    hide Sorted;
    WithoutMembers(s.waiters, t);
    hide Without, Distinct;
  }

  /** No timeout in the run takes the reason for the owner's urgency away. */
  ghost predicate Considerate(s: Mutex, es: seq<Event>, base: Priorities)
    decreases es
  {
    es != [] ==> (es[0].Timeout? ==> NotTheReason(s, es[0].t, base)) && Considerate(Step(s, es[0]).0, es[1..], base)
  }

  /** Through any such run the owner has exactly the urgency it should have. */
  lemma {:induction false} RunExact(s: Mutex, es: seq<Event>, base: Priorities)
    requires Inv(s, base) && Exact(s, base) && Runs(s, es) && Considerate(s, es, base)
    ensures Exact(Final(s, es), base)
    decreases es
  {
    hide Inv, Enabled, Exact, TakeStep, ReleaseStep, NotTheReason;
    if es != [] {
      StepKeeps(s, es[0], base);
      match es[0] {
        case Take(t, time) => TakeExact(s, t, time, base);
        case Release(t) => ReleaseExact(s, t, base);
        case Timeout(t) => TimeoutExact(s, t, base);
      }
      RunExact(Step(s, es[0]).0, es[1..], base);
    }
  }

  /** The urgency stays until the last release: until then nothing but a more urgent waiter changes it. */
  lemma BoostLasts(s: Mutex, e: Event, base: Priorities)
    requires Inv(s, base) && Enabled(s, e) && s.owner >= 0
    requires !(e.Take? && e.t != s.owner && s.prio(e.t) < s.prio(s.owner) && Step(s, e).1 == Waiting)
    requires !(e.Release? && e.t == s.owner && s.hold == 1)
    ensures Step(s, e).0.owner == s.owner && Step(s, e).0.prio(s.owner) == s.prio(s.owner)
  {
  }

  /**
   A timeout does not take back what was inherited: then the owner can be more urgent than itself and all its
   waiters.
   */
  lemma TimeoutKeepsBoost(base: Priorities)
    requires base(0) == 20 && base(1) == 5
    ensures var es := [Take(0, 0), Take(1, 10), Timeout(1)];
      Runs(Init(base), es) && Final(Init(base), es).owner == 0 && Final(Init(base), es).waiters == []
      && Final(Init(base), es).prio(0) == 5
  {
    var es := [Take(0, 0), Take(1, 10), Timeout(1)];
    var s1 := Step(Init(base), es[0]).0;
    var s2 := Step(s1, es[1]).0;
    assert s2.waiters == [1];
    assert es[1..] == [Take(1, 10), Timeout(1)] && es[1..][1..] == [Timeout(1)] && es[1..][1..][1..] == [];
    assert Runs(s2, [Timeout(1)]);
    assert Runs(s1, es[1..]);
  }

  // ---------- the object of ipc.c ----------

  class MutexObject {
    var value: int
    var hold: nat
    var owner: int
    var originalPriority: nat
    var waiters: seq<Tid>
    var prio: Priorities

    ghost function State(): Mutex
      reads this
    {
      Mutex(value, hold, owner, originalPriority, waiters, prio)
    }

    /** rt_mutex_init */
    constructor (prio: Priorities)
      ensures State() == Init(prio) && Inv(State(), prio)
    {
      value, hold, owner, originalPriority, waiters := 1, 0, NOBODY, 0xFF, [];
      this.prio := prio;
    }

    /** rt_thread_control(t, RT_THREAD_CTRL_CHANGE_PRIORITY, &p) */
    method ChangePriority(t: Tid, p: nat)
      modifies this`prio
      ensures prio == Changed(old(prio), t, p)
    {
      var was := prio;
      prio := (u: Tid) => if u == t then p else was(u);
    }

    method TakeSection(t: Tid, time: int, ghost base: Priorities) returns (r: Result)
      requires Inv(State(), base) && Enabled(State(), Take(t, time))
      modifies this
      ensures (State(), r) == Step(old(State()), Take(t, time)) && Inv(State(), base)
    {
      StepKeeps(State(), Take(t, time), base);
      hide Queued, Changed;
      if owner == t {
        hold := hold + 1;
        return Taken;
      }
      if value > 0 {
        value := value - 1;
        owner, originalPriority := t, prio(t);
        hold := hold + 1;
        return Taken;
      }
      if time == 0 {
        return Failed;
      }
      if prio(t) < prio(owner) {
        ChangePriority(owner, prio(t));
      }
      waiters := Suspend(waiters, t, PRIO, prio);
      r := Waiting;
    }

    method ReleaseSection(t: Tid, ghost base: Priorities) returns (r: Result)
      requires Inv(State(), base) && Enabled(State(), Release(t))
      modifies this
      ensures (State(), r) == Step(old(State()), Release(t)) && Inv(State(), base)
    {
      StepKeeps(State(), Release(t), base);
      if t != owner {
        return Failed;
      }
      hold := hold - 1;
      if hold == 0 {
        if originalPriority != prio(owner) {
          ChangePriority(owner, originalPriority);
        }
        if waiters != [] {
          var thread := waiters[0];
          owner, originalPriority := thread, prio(thread);
          hold := hold + 1;
          waiters := waiters[1..];
        } else {
          value := value + 1;
          owner, originalPriority := NOBODY, 0xFF;
        }
      }
      r := Released;
    }

    /** rt_thread_timeout of a waiting thread */
    method TimeoutSection(t: Tid, ghost base: Priorities)
      requires Inv(State(), base) && t in waiters
      modifies this
      ensures State() == Step(old(State()), Timeout(t)).0 && Inv(State(), base)
    {
      StepKeeps(State(), Timeout(t), base);
      waiters := Without(waiters, t);
    }
  }
}

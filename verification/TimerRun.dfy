/**
 Runs of the timers of timer.c: ticks, starts and stops in any order. The tick handler rt_tick_increase
 moves the tick on, wrap-around included, and runs the expiry loop.
 */
module TimerRun {
  import opened Lists
  import opened TimerSpec

  datatype Event = Starts(t: Tid) | Stops(t: Tid) | Ticks

  function TickStep(s: Timers): (Timers, seq<Tid>) { Check(s.(now := Plus(s.now, 1))) }

  function Next(s: Timers, e: Event): (Timers, seq<Tid>) {
    match e
    case Starts(t) => (Start(s, t), [])
    case Stops(t) => (Stop(s, t), [])
    case Ticks => TickStep(s)
  }

  // ---------- what a turn of the expiry loop does to each timer ----------

  lemma FireFate(s: Timers, u: Tid)
    requires Inv(s, 0) && s.list != [] && Key(s, s.list[0]) <= 1
    ensures u != s.list[0] ==> (u in Fire(s).list <==> u in s.list) && Key(Fire(s), u) == Key(s, u)
    ensures u == s.list[0] ==> (u in Fire(s).list <==> u in s.periodic)
                               && (u in s.periodic ==> Key(Fire(s), u) == InitOf(s, u) + 1)
  {
    hide Key, Without, Sorted, Distinct, Start, Armed;
    var t := s.list[0];
    var s1 := s.(list := s.list[1..], active := s.active - {t});
    PopKeeps(s);
    TailKeeps(s, s.list);
    assert t in s.active;
    if t in s.periodic {
      StartKeeps(s1, t, 0);
      var k := StartPosition(s1, t, 0);
      InsertIndex(s1.list, k, t);
    }
  }

  lemma {:induction false} CheckAbsent(s: Timers, t: Tid)
    requires Inv(s, 0) && t !in s.list
    ensures var (s', fired) := Check(s); t !in s'.list && t !in fired
    decreases DueCount(s, s.list)
  {
    hide Fire, DueCount, Key, Inv;
    if DueCount(s, s.list) > 0 {
      FirstDue(s);
      FireKeeps(s);
      FireFate(s, t);
      CheckAbsent(Fire(s), t);
    }
  }

  /**
   The expiry loop fires a timer if and only if it is due; it stays on the list unless it fired and is not
   periodic.
   */
  lemma {:induction false} CheckFate(s: Timers, t: Tid)
    requires Inv(s, 0) && t in s.list
    ensures var (s', fired) := Check(s);
            && (t in fired <==> Key(s, t) <= 1)
            && (t !in fired ==> t in s'.list && Key(s', t) == Key(s, t))
            && (t in fired ==> (t in s'.list <==> t in s.periodic))
            && (t in fired && t in s.periodic ==> Key(s', t) == InitOf(s, t) + 1)
    decreases DueCount(s, s.list)
  {
    hide Fire, DueCount, Key, Inv;
    if DueCount(s, s.list) == 0 {
      NoneDue(s);
      KeysFrom(s, t, 2);
    } else {
      FirstDue(s);
      FireKeeps(s);
      FireFate(s, t);
      if t == s.list[0] && t !in s.periodic {
        CheckAbsent(Fire(s), t);
      } else {
        KeysFrom(s, t, 0);
        PeriodicInit(s, t);
        CheckFate(Fire(s), t);
      }
    }
  }

  lemma KeysFrom(s: Timers, t: Tid, low: nat)
    requires Inv(s, low) && t in s.list
    ensures low <= Key(s, t) <= HALF
  {
  }

  lemma PeriodicInit(s: Timers, t: Tid)
    requires Inv(s, 0) || Inv(s, 1)
    ensures t in s.periodic ==> InitOf(s, t) >= 1
  {
  }

  // ---------- one tick ----------

  lemma TickWindow(s: Timers)
    requires Inv(s, 1)
    ensures var s1 := s.(now := Plus(s.now, 1));
            Inv(s1, 0) && forall t :: t in s.list ==> Key(s1, t) == Key(s, t) - 1
  {
    var s1 := s.(now := Plus(s.now, 1));
    forall t | t in s.list
      ensures Key(s1, t) == Key(s, t) - 1
    {
      Mod32(s.now + 1);
      Mod32(TimeoutOf(s, t) - s.now + 1);
      Mod32(TimeoutOf(s, t) - Plus(s.now, 1) + 1);
    }
    hide Key;
    forall i | 0 <= i < |s.list|
      ensures Key(s1, s.list[i]) == Key(s, s.list[i]) - 1
    {
      assert s.list[i] in s.list;
    }
  }

  /** A tick fires a timer if and only if at most one tick was left; otherwise one tick less is left. */
  lemma TickFate(s: Timers, t: Tid)
    requires Inv(s, 1) && t in s.list
    ensures var (s', fired) := TickStep(s);
            && (t in fired <==> Key(s, t) <= 2)
            && (t !in fired ==> t in s'.list && Key(s', t) == Key(s, t) - 1)
            && (t in fired ==> (t in s'.list <==> t in s.periodic))
            && (t in fired && t in s.periodic ==> Key(s', t) == InitOf(s, t) + 1)
  {
    hide Key, Inv, Check;
    TickWindow(s);
    CheckFate(s.(now := Plus(s.now, 1)), t);
  }

  lemma TickKeeps(s: Timers)
    requires Inv(s, 1)
    ensures var (s', fired) := TickStep(s); Inv(s', 1) && s'.init == s.init && s'.periodic == s.periodic
  {
    hide Key, Check, Sorted, Distinct;
    TickWindow(s);
    var s1 := s.(now := Plus(s.now, 1));
    CheckFires(s1);
    NoneDue(Check(s1).0);
  }

  lemma NextKeeps(s: Timers, e: Event)
    requires Inv(s, 1)
    ensures Inv(Next(s, e).0, 1) && Next(s, e).0.init == s.init && Next(s, e).0.periodic == s.periodic
  {
    hide Inv, TickStep, Stop, Start;
    match e
    case Starts(t) =>
      StartKeeps(s, t, 1);
      StartFields(s, t);
    case Stops(t) =>
      StopKeeps(s, t, 1);
      StopFields(s, t);
    case Ticks => TickKeeps(s);
  }

  lemma StopFields(s: Timers, t: Tid)
    ensures Stop(s, t).init == s.init && Stop(s, t).periodic == s.periodic
  {
  }

  /** Starting or stopping another timer leaves t alone. */
  lemma OtherFate(s: Timers, e: Event, t: Tid)
    requires Inv(s, 1) && !e.Ticks? && e.t != t
    ensures t in Next(s, e).0.list <==> t in s.list
    ensures Key(Next(s, e).0, t) == Key(s, t) && Next(s, e).1 == []
  {
    hide Sorted, Distinct, Without, Start, Armed;
    WithoutMembers(s.list, e.t) by { assert Distinct(s.list); }
    if e.Starts? {
      StartKeeps(s, e.t, 1);
      var k := StartPosition(s, e.t, 1);
      InsertIndex(Without(s.list, e.t), k, e.t);
    }
  }

  // ---------- runs ----------

  function TickCount(es: seq<Event>): nat {
    if es == [] then 0 else (if es[0].Ticks? then 1 else 0) + TickCount(es[1..])
  }

  /** The numbers of the ticks at which t fires in a run, the run starting at tick number clock. */
  function Firings(s: Timers, es: seq<Event>, t: Tid, clock: nat): seq<nat>
    decreases |es|
  {
    if es == [] then []
    else
      var (s', fired) := Next(s, es[0]);
      var clock' := if es[0].Ticks? then clock + 1 else clock;
      (if t in fired then [clock'] else []) + Firings(s', es[1..], t, clock')
  }

  ghost predicate LeftAlone(es: seq<Event>, t: Tid) {
    forall i :: 0 <= i < |es| ==> es[i].Ticks? || es[i].t != t
  }

  /** first, first + n, first + 2n, ... up to last */
  function Every(first: nat, n: nat, last: nat): seq<nat>
    requires n >= 1
    decreases last + 1 - first
  {
    if first > last then [] else [first] + Every(first + n, n, last)
  }

  /** How many ticks are left; a timer started with 0 still waits for the next tick. */
  function Left(s: Timers, t: Tid): nat { if Key(s, t) <= 2 then 1 else Key(s, t) - 1 }

  lemma {:induction false} SilentOffList(s: Timers, es: seq<Event>, t: Tid, clock: nat)
    requires Inv(s, 1) && LeftAlone(es, t) && t !in s.list
    ensures Firings(s, es, t, clock) == []
    decreases |es|
  {
    hide Next, Inv;
    if es != [] {
      NextKeeps(s, es[0]);
      NextOff(s, es[0], t);
      SilentOffList(Next(s, es[0]).0, es[1..], t, if es[0].Ticks? then clock + 1 else clock);
    }
  }

  lemma NextOff(s: Timers, e: Event, t: Tid)
    requires Inv(s, 1) && t !in s.list && (e.Ticks? || e.t != t)
    ensures t !in Next(s, e).0.list && t !in Next(s, e).1
  {
    hide Check, Inv;
    if e.Ticks? {
      TickWindow(s);
      CheckAbsent(s.(now := Plus(s.now, 1)), t);
    } else {
      OtherFate(s, e, t);
    }
  }

  /** The firing times from `clock` on of a timer with `left` ticks to go, while the clock goes on for n ticks. */
  function FiringTimes(periodic: bool, clock: nat, left: nat, period: nat, n: nat): seq<nat>
    requires period >= 1
  {
    if periodic then Every(clock + left, period, clock + n) else if left <= n then [clock + left] else []
  }

  /** One tick earlier, with one tick more to go; or one firing earlier. */
  lemma OneTickLess(periodic: bool, clock: nat, left: nat, period: nat, n: nat)
    requires period >= 1 && left >= 1 && n >= 1
    ensures left > 1 ==>
        FiringTimes(periodic, clock, left, period, n) == FiringTimes(periodic, clock + 1, left - 1, period, n - 1)
    ensures left == 1 && periodic ==>
        FiringTimes(periodic, clock, 1, period, n) == [clock + 1]
          + FiringTimes(periodic, clock + 1, period, period, n - 1)
    ensures left == 1 && !periodic ==> FiringTimes(periodic, clock, 1, period, n) == [clock + 1]
  {
  }

  lemma {:induction false} FiresInRun(s: Timers, es: seq<Event>, t: Tid, clock: nat)
    requires Inv(s, 1) && LeftAlone(es, t) && t in s.list
    ensures Firings(s, es, t, clock) == FiringTimes(t in s.periodic, clock, Left(s, t), Period(s, t), TickCount(es))
    decreases |es|
  {
    hide Key, Next, Inv, FiringTimes, Left;
    LeftPositive(s, t);
    if es == [] {
      NothingYet(t in s.periodic, clock, Left(s, t), Period(s, t));
    } else {
      var (s', fired) := Next(s, es[0]);
      NextKeeps(s, es[0]);
      if es[0].Ticks? {
        NextLeft(s, t);
        OneTickLess(t in s.periodic, clock, Left(s, t), Period(s, t), TickCount(es));
        if t in fired && t !in s.periodic {
          SilentOffList(s', es[1..], t, clock + 1);
        } else {
          FiresInRun(s', es[1..], t, clock + 1);
        }
      } else {
        OtherFate(s, es[0], t);
        SameLeft(s, s', t);
        FiresInRun(s', es[1..], t, clock);
      }
    }
  }

  lemma LeftPositive(s: Timers, t: Tid)
    ensures Left(s, t) >= 1
  {
  }

  lemma SameLeft(s: Timers, s': Timers, t: Tid)
    requires Key(s', t) == Key(s, t)
    ensures Left(s', t) == Left(s, t)
  {
  }

  lemma NothingYet(periodic: bool, clock: nat, left: nat, period: nat)
    requires period >= 1 && left >= 1
    ensures FiringTimes(periodic, clock, left, period, 0) == []
  {
  }

  /**
   A tick fires a timer exactly if one tick was left; then a periodic one has its period left, and another one
   less.
   */
  lemma NextLeft(s: Timers, t: Tid)
    requires Inv(s, 1) && t in s.list
    ensures var (s', fired) := Next(s, Ticks);
            && (t in fired <==> Left(s, t) == 1)
            && (t !in fired ==> t in s'.list && Left(s', t) == Left(s, t) - 1)
            && (t in fired ==> (t in s'.list <==> t in s.periodic))
            && (t in fired && t in s.periodic ==> Left(s', t) == Period(s, t))
  {
    NextTick(s, t);
    KeysFrom(s, t, 1);
    PeriodicInit(s, t);
    hide Key, Next, Inv;
  }

  function Period(s: Timers, t: Tid): nat { if InitOf(s, t) < 1 then 1 else InitOf(s, t) }

  lemma NextTick(s: Timers, t: Tid)
    requires Inv(s, 1) && t in s.list
    ensures var (s', fired) := Next(s, Ticks);
            && (t in fired <==> Key(s, t) <= 2)
            && (t !in fired ==> t in s'.list && Key(s', t) == Key(s, t) - 1)
            && (t in fired ==> (t in s'.list <==> t in s.periodic))
            && (t in fired && t in s.periodic ==> Key(s', t) == InitOf(s, t) + 1)
  {
    TickFate(s, t);
  }

  /**
   Over any run of ticks, with other timers starting and stopping in between, a timer started with n >= 1 ticks
   fires exactly n ticks later, and if it is periodic every n ticks from then on; no other time.
   */
  lemma FiresExactly(s0: Timers, t: Tid, es: seq<Event>)
    requires Inv(s0, 1) && LeftAlone(es, t) && InitOf(s0, t) >= 1
    ensures var n := InitOf(s0, t);
            Firings(Start(s0, t), es, t, 0)
            == (if t in s0.periodic then Every(n, n, TickCount(es)) else if n <= TickCount(es) then [n] else [])
  {
    hide Key, Start, Inv, Every;
    StartKeeps(s0, t, 1);
    StartFields(s0, t);
    FiresInRun(Start(s0, t), es, t, 0);
  }
}

/** What a caller of the mutex sees: who gets it and when, and that every take is paid back by one release. */
module MutexLaws {
  import opened Lists
  import opened WaitList
  import opened Mutex

  // ---------- one call ----------

  /** A take succeeds at once if the mutex is free or one's own, once more each time; otherwise one waits or fails. */
  lemma TakeMeans(s: Mutex, t: Tid, time: int, base: Priorities)
    requires Inv(s, base) && Enabled(s, Take(t, time))
    ensures var (s', r) := Step(s, Take(t, time));
      && (r == Taken <==> s.owner == t || s.owner == NOBODY)
      && (r == Failed <==> s.owner != t && s.owner != NOBODY && time == 0)
      && (r == Waiting <==> s.owner != t && s.owner != NOBODY && time != 0)
      && (r == Taken ==>
        s'.owner == t && s'.hold == s.hold + 1 && s'.value == 0 && s'.waiters == s.waiters && s'.prio == s.prio)
      && (r == Failed ==> s' == s)
      && (r == Waiting ==> s'.owner == s.owner && s'.hold == s.hold && t in s'.waiters
                           && Without(s'.waiters, t) == s.waiters)
  {
    hide Queued;
    var s' := Step(s, Take(t, time)).0;
    QueuedMembers(s.waiters, t, PRIO, s'.prio);
    QueuedAround(s.waiters, t, PRIO, s'.prio);
  }

  /** Only the owner can release, and the mutex stays its own until its last release. */
  lemma ReleaseMeans(s: Mutex, t: Tid, base: Priorities)
    requires Inv(s, base) && Enabled(s, Release(t))
    ensures var (s', r) := Step(s, Release(t));
      && (r == Released <==> s.owner == t) && (r == Failed <==> s.owner != t)
      && (r == Failed ==> s' == s)
      && (r == Released && s.hold > 1 ==> s' == s.(hold := s.hold - 1))
      && (r == Released && s.hold == 1 ==> s'.owner == if s.waiters == [] then NOBODY else s.waiters[0])
  {
  }

  // ---------- all calls together ----------

  /**
   By how much a step changes the number of times thread t has the mutex: it takes it, gives it back, or is
   handed it.
   */
  function Gain(s: Mutex, e: Event, t: Tid): int {
    var (s', r) := Step(s, e);
    (if e == Release(t) && r == Released then -1 else 0)
    + (if (e.Take? && e.t == t && r == Taken) || (e.Release? && s.owner != t && s'.owner == t) then 1 else 0)
  }

  function Gains(s: Mutex, es: seq<Event>, t: Tid): int
    decreases es
  {
    if es == [] then 0 else Gain(s, es[0], t) + Gains(Step(s, es[0]).0, es[1..], t)
  }

  /** How often thread t has the mutex. */
  function Held(s: Mutex, t: Tid): nat { if s.owner == t then s.hold else 0 }

  lemma StepBalance(s: Mutex, e: Event, t: Tid, base: Priorities)
    requires Inv(s, base) && Enabled(s, e)
    ensures Held(Step(s, e).0, t) == Held(s, t) + Gain(s, e, t)
  {
    hide Queued, Without, Sorted;
    assert s.waiters != [] ==> s.waiters[0] in s.waiters;
  }

  /**
   The books balance: after any run, every thread has the mutex as often as it took it or was handed it, less its
   releases; so it loses it with the release that makes them equal, and no other.
   */
  lemma {:induction false} Balance(s: Mutex, es: seq<Event>, t: Tid, base: Priorities)
    requires Inv(s, base) && Runs(s, es)
    ensures Held(Final(s, es), t) == Held(s, t) + Gains(s, es, t)
    decreases es
  {
    hide Inv, Enabled, Step, Gain, Held;
    if es != [] {
      StepKeeps(s, es[0], base);
      StepBalance(s, es[0], t, base);
      Balance(Step(s, es[0]).0, es[1..], t, base);
    }
  }

  /** From the start: who has given back all it took has it no more, whoever has not is the owner. */
  lemma OwnerOwes(es: seq<Event>, t: Tid, base: Priorities)
    requires Runs(Init(base), es)
    ensures Gains(Init(base), es, t) >= 0
    ensures Final(Init(base), es).owner == t <==> Gains(Init(base), es, t) > 0
    ensures Final(Init(base), es).owner == t ==> Final(Init(base), es).hold == Gains(Init(base), es, t)
  {
    Balance(Init(base), es, t, base);
    RunKeeps(Init(base), es, base);
    hide Gains, Final, Runs;
  }

  // ---------- nesting ----------

  /** k takes, one inside the other, and as many releases */
  function Nest(t: Tid, k: nat): seq<Event> {
    if k == 0 then [] else [Take(t, 0)] + (Nest(t, k - 1) + [Release(t)])
  }

  lemma {:induction false} Append(s: Mutex, a: seq<Event>, b: seq<Event>)
    requires Runs(s, a) && Runs(Final(s, a), b)
    ensures Runs(s, a + b) && Final(s, a + b) == Final(Final(s, a), b)
    decreases a
  {
    hide Step, Enabled;
    if a == [] {
      assert a + b == b;
    } else {
      assert (a + b)[1..] == a[1..] + b;
      Append(Step(s, a[0]).0, a[1..], b);
    }
  }

  /** For the owner, takes and releases within each other leave everything as it was, whatever was inherited. */
  lemma {:induction false} NestedTakes(s: Mutex, t: Tid, k: nat, base: Priorities)
    requires Inv(s, base) && s.owner == t && s.hold + k <= HOLD_MAX
    ensures Runs(s, Nest(t, k)) && Final(s, Nest(t, k)) == s
    decreases k
  {
    if k > 0 {
      var s1 := s.(hold := s.hold + 1);
      assert Step(s, Take(t, 0)).0 == s1 && Step(s1, Release(t)).0 == s;
      NestedTakes(s1, t, k - 1, base);
      hide Step, Inv;
      var inner, last := Nest(t, k - 1), [Release(t)];
      assert last[1..] == [];
      assert Runs(s, []) && Final(s, []) == s;
      assert Runs(s1, last) && Final(s1, last) == s;
      Append(s1, inner, last);
      var es := [Take(t, 0)] + (inner + last);
      assert es[1..] == inner + last;
    }
  }

  /** A thread that takes a free mutex k times has it until it has released it k times; then it is free again. */
  lemma TakenAndReleased(s: Mutex, t: Tid, k: nat, base: Priorities)
    requires Inv(s, base) && s.owner == NOBODY && 0 < k <= HOLD_MAX
    ensures Runs(s, Nest(t, k)) && Final(s, Nest(t, k)) == s.(originalPriority := 0xFF)
  {
    var s1 := Step(s, Take(t, 0)).0;
    StepKeeps(s, Take(t, 0), base);
    NestedTakes(s1, t, k - 1, base);
    var inner, last := Nest(t, k - 1), [Release(t)];
    var end := Step(s1, Release(t)).0;
    assert end == s.(originalPriority := 0xFF);
    assert last[1..] == [];
    assert Runs(end, []) && Final(end, []) == end;
    assert Runs(s1, last) && Final(s1, last) == end;
    Append(s1, inner, last);
    var es := [Take(t, 0)] + (inner + last);
    assert es[1..] == inner + last;
  }
}

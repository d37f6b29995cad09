/**
 The kernel timers of timer.c, seen as one list in the order of their timeouts. Ticks are 32-bit and
 wrap around; order is judged by the difference of two ticks.
 */
module TimerSpec {
  import opened Widths
  import opened Lists

  const WIDTH: int := 0x1_0000_0000
  const HALF: int := 0x7fff_ffff            // RT_TICK_MAX / 2

  type Tick = U32
  type Tid = nat

  function Plus(a: Tick, n: int): Tick { (a + n) % WIDTH }

  /** a is after b, as rt_timer_start judges it */
  predicate Later(a: Tick, b: Tick) { 0 < (a - b) % WIDTH < HALF }

  /** the timeout has passed, as rt_timer_check judges it */
  predicate Due(now: Tick, timeout: Tick) { (now - timeout) % WIDTH < HALF }

  /** How far a timeout lies ahead of the tick before now. */
  function Ahead(now: Tick, x: Tick): Tick { (x - now + 1) % WIDTH }

  /** Both comparisons mean what they should, wrap-around included, in a window of half the tick range. */
  lemma Comparisons(now: Tick, a: Tick, b: Tick)
    requires Ahead(now, a) <= HALF && 1 <= Ahead(now, b) <= HALF
    ensures Later(a, b) <==> Ahead(now, a) > Ahead(now, b)
    ensures Due(now, a) <==> Ahead(now, a) <= 1
  {
    Mod32(a - b);
    Mod32(now - a);
    Mod32(a - now + 1);
    Mod32(b - now + 1);
  }

  /** Modulo 2^32 of a number that wrapped around at most once. */
  lemma Mod32(x: int)
    requires -WIDTH <= x < 2 * WIDTH
    ensures x % WIDTH == if x < 0 then x + WIDTH else if x < WIDTH then x else x - WIDTH
  {
  }

  // ---------- the state ----------

  datatype Timers = Timers(
    now: Tick, list: seq<Tid>, timeout: map<Tid, Tick>, init: map<Tid, Tick>, periodic: set<Tid>, active: set<Tid>)

  function TimeoutOf(s: Timers, t: Tid): Tick { if t in s.timeout then s.timeout[t] else 0 }

  function InitOf(s: Timers, t: Tid): Tick { if t in s.init then s.init[t] else 0 }

  /** How many timers of the list go before a new one that expires at x: those that do not expire later. */
  function Before(list: seq<Tid>, s: Timers, x: Tick): (k: nat)
    ensures k <= |list|
  {
    if list == [] || Later(TimeoutOf(s, list[0]), x) then 0 else 1 + Before(list[1..], s, x)
  }

  /** rt_timer_start up to the search: the timer is off the list, its timeout is set. */
  function Armed(s: Timers, t: Tid): Timers {
    s.(list := Without(s.list, t), timeout := s.timeout[t := Plus(s.now, InitOf(s, t))], active := s.active + {t})
  }

  /** rt_timer_start */
  function Start(s: Timers, t: Tid): Timers {
    var a := Armed(s, t);
    a.(list := InsertAt(a.list, Before(a.list, a, TimeoutOf(a, t)), t))
  }

  function InsertAt(rest: seq<Tid>, k: nat, t: Tid): seq<Tid>
    requires k <= |rest|
  {
    rest[..k] + [t] + rest[k..]
  }

  lemma InsertIndex(rest: seq<Tid>, k: nat, t: Tid)
    requires k <= |rest|
    ensures |InsertAt(rest, k, t)| == |rest| + 1
    ensures forall i {:trigger InsertAt(rest, k, t)[i]} :: 0 <= i <= |rest| ==>
      InsertAt(rest, k, t)[i] == if i < k then rest[i] else if i == k then t else rest[i - 1]
    ensures forall u :: u in InsertAt(rest, k, t) <==> u == t || u in rest
  {
    assert rest == rest[..k] + rest[k..];
  }

  /** rt_timer_stop */
  function Stop(s: Timers, t: Tid): Timers {
    if t in s.active then s.(list := Without(s.list, t), active := s.active - {t}) else s
  }

  /** One turn of the loop of rt_timer_check: the first timer fires; a periodic one starts again. */
  function Fire(s: Timers): Timers
    requires s.list != []
  {
    var t := s.list[0];
    var s' := s.(list := s.list[1..], active := s.active - {t});
    if t in s.periodic && t in s.active then Start(s', t) else s'
  }

  // ---------- the invariant ----------

  /** How far ahead a timer's timeout lies. */
  function Key(s: Timers, t: Tid): Tick { Ahead(s.now, TimeoutOf(s, t)) }

  ghost predicate Sorted(s: Timers, list: seq<Tid>) {
    forall i, j :: 0 <= i < j < |list| ==> Key(s, list[i]) <= Key(s, list[j])
  }

  /** All linked timeouts lie in the window of half the tick range that starts at the previous tick (plus low). */
  ghost predicate Inv(s: Timers, low: nat) {
    && Distinct(s.list) && Sorted(s, s.list)
    && (forall t :: t in s.list ==> low <= Key(s, t) <= HALF)
    && (forall t :: t in s.list <==> t in s.active) && (forall t :: t in s.list ==> t in s.timeout)
    && (forall t :: t in s.init ==> s.init[t] < HALF)
    && (forall t :: t in s.periodic ==> t in s.init && s.init[t] >= 1)
  }

  // ---------- starting and stopping ----------

  lemma {:induction false} BeforeMeans(list: seq<Tid>, s: Timers, x: Tick)
    requires Sorted(s, list) && 1 <= Ahead(s.now, x) <= HALF
    requires forall t :: t in list ==> Key(s, t) <= HALF
    ensures forall i :: 0 <= i < |list| ==> (Key(s, list[i]) <= Ahead(s.now, x) <==> i < Before(list, s, x))
  {
    if list != [] {
      assert list[0] in list && Key(s, list[0]) == Ahead(s.now, TimeoutOf(s, list[0]));
      Comparisons(s.now, TimeoutOf(s, list[0]), x);
      hide Ahead, Later, TimeoutOf;
      if !Later(TimeoutOf(s, list[0]), x) {
        BeforeMeans(list[1..], s, x);
        forall i | 0 <= i < |list|
          ensures Key(s, list[i]) <= Ahead(s.now, x) <==> i < Before(list, s, x)
        {
          if i > 0 {
            assert list[1..][i - 1] == list[i];
          }
        }
      }
    }
  }

  lemma {:induction false} WithoutSorted(s: Timers, list: seq<Tid>, t: Tid)
    requires Sorted(s, list) && Distinct(list)
    ensures Sorted(s, Without(list, t))
  {
    hide Key;
    if list != [] && list[0] != t {
      WithoutSorted(s, list[1..], t);
      WithoutMembers(list[1..], t);
      var rest := Without(list[1..], t);
      forall j | 0 <= j < |rest|
        ensures Key(s, list[0]) <= Key(s, rest[j])
      {
        assert rest[j] in list[1..];
        var i :| 1 <= i < |list| && list[i] == rest[j];
      }
    }
  }

  lemma AheadOfStart(now: Tick, n: int)
    requires 0 <= n < HALF
    ensures Ahead(now, Plus(now, n)) == n + 1
  {
    Mod32(now + n);
    Mod32(Plus(now, n) - now + 1);
  }

  /** A new timer in its place: sorted as before, behind all that do not expire later. */
  lemma PlaceKeeps(s: Timers, rest: seq<Tid>, k: nat, t: Tid)
    requires Sorted(s, rest) && Distinct(rest) && t !in rest && k <= |rest|
    requires forall i :: 0 <= i < |rest| ==> (Key(s, rest[i]) <= Key(s, t) <==> i < k)
    ensures Sorted(s, InsertAt(rest, k, t)) && Distinct(InsertAt(rest, k, t))
    ensures forall i :: 0 <= i <= |rest| && i != k ==> (Key(s, InsertAt(rest, k, t)[i]) <= Key(s, t) <==> i < k)
  {
    hide Key, InsertAt;
    InsertIndex(rest, k, t);
    var list := InsertAt(rest, k, t);
    forall i, j | 0 <= i < j < |list|
      ensures Key(s, list[i]) <= Key(s, list[j]) && list[i] != list[j]
    {
      if i == k {
        assert rest[j - 1] in rest;
      } else if j == k {
        assert rest[i] in rest;
      }
    }
  }

  lemma ArmedKeeps(s: Timers, t: Tid, low: nat)
    requires Inv(s, low) && low <= 1
    ensures var a := Armed(s, t);
            && Sorted(a, a.list) && Distinct(a.list) && t !in a.list && Key(a, t) == InitOf(s, t) + 1 <= HALF
            && (forall u :: u in a.list <==> u in s.list && u != t)
            && (forall u :: u in a.list ==> Key(a, u) == Key(s, u) && low <= Key(a, u) <= HALF)
  {
    hide Without, Ahead, Before;
    AheadOfStart(s.now, InitOf(s, t));
    WithoutMembers(s.list, t);
    WithoutSorted(s, s.list, t);
    var a := Armed(s, t);
    forall i | 0 <= i < |a.list|
      ensures Key(a, a.list[i]) == Key(s, a.list[i])
    {
      assert a.list[i] in a.list;
    }
  }

  lemma StartKeeps(s: Timers, t: Tid, low: nat)
    requires Inv(s, low) && low <= 1
    ensures Inv(Start(s, t), low) && t in Start(s, t).list && Key(Start(s, t), t) == InitOf(s, t) + 1
    ensures forall u :: u != t ==> Key(Start(s, t), u) == Key(s, u)
  {
    hide Without, Ahead, Before, InsertAt, Distinct, Sorted;
    ArmedKeeps(s, t, low);
    var a := Armed(s, t);
    BeforeMeans(a.list, a, TimeoutOf(a, t));
    var k := Before(a.list, a, TimeoutOf(a, t));
    PlaceKeeps(a, a.list, k, t);
    InsertIndex(a.list, k, t);
    SameKeys(a, Start(s, t), Start(s, t).list);
  }

  lemma SameKeys(s: Timers, s': Timers, list: seq<Tid>)
    requires Sorted(s, list) && s'.now == s.now && s'.timeout == s.timeout
    ensures Sorted(s', list) && forall u :: Key(s', u) == Key(s, u)
  {
  }

  lemma StopKeeps(s: Timers, t: Tid, low: nat)
    requires Inv(s, low)
    ensures Inv(Stop(s, t), low) && t !in Stop(s, t).list
  {
    hide Without, Ahead, Distinct, Sorted;
    WithoutMembers(s.list, t);
    WithoutSorted(s, s.list, t);
    SameKeys(s, Stop(s, t), Stop(s, t).list);
  }

  /** Where a started timer stands: behind every timer that expires no later, equal ones included, before all others. */
  lemma StartPosition(s: Timers, t: Tid, low: nat) returns (k: nat)
    requires Inv(s, low) && low <= 1
    ensures var s' := Start(s, t);
            && k <= |Without(s.list, t)| && s'.list == InsertAt(Without(s.list, t), k, t)
              && |s'.list| == |Without(s.list, t)| + 1
            && s'.list[k] == t
            && forall i :: 0 <= i < |s'.list| && i != k ==> (Key(s', s'.list[i]) <= Key(s', t) <==> i < k)
  {
    hide Without, Ahead, Before, InsertAt, Distinct, Sorted, Inv;
    ArmedKeeps(s, t, low);
    var a := Armed(s, t);
    BeforeMeans(a.list, a, TimeoutOf(a, t));
    k := Before(a.list, a, TimeoutOf(a, t));
    PlaceKeeps(a, a.list, k, t);
    InsertIndex(a.list, k, t);
    SameKeys(a, Start(s, t), Start(s, t).list);
  }

  // ---------- the expiry loop ----------

  /** The timers that are due: the list starts with them. */
  function DueCount(s: Timers, list: seq<Tid>): (k: nat)
    ensures k <= |list|
  {
    if list == [] || !Due(s.now, TimeoutOf(s, list[0])) then 0 else 1 + DueCount(s, list[1..])
  }

  lemma DueKey(now: Tick, x: Tick)
    requires Ahead(now, x) <= HALF
    ensures Due(now, x) <==> Ahead(now, x) <= 1
  {
    Mod32(now - x);
    Mod32(x - now + 1);
  }

  lemma {:induction false} DueMeans(s: Timers, list: seq<Tid>)
    requires Sorted(s, list) && forall t :: t in list ==> Key(s, t) <= HALF
    ensures forall i :: 0 <= i < |list| ==> (Key(s, list[i]) <= 1 <==> i < DueCount(s, list))
  {
    if list != [] {
      assert list[0] in list && Key(s, list[0]) == Ahead(s.now, TimeoutOf(s, list[0]));
      DueKey(s.now, TimeoutOf(s, list[0]));
      hide Ahead, Due, TimeoutOf;
      if Key(s, list[0]) <= 1 {
        DueMeans(s, list[1..]);
        forall i | 0 <= i < |list|
          ensures Key(s, list[i]) <= 1 <==> i < DueCount(s, list)
        {
          if i > 0 {
            assert list[1..][i - 1] == list[i];
          }
        }
      }
    }
  }

  /** The number of due timers, read off the keys. */
  lemma DueCountIs(s: Timers, list: seq<Tid>, k: nat)
    requires Sorted(s, list) && forall t :: t in list ==> Key(s, t) <= HALF
    requires k <= |list| && (forall i :: 0 <= i < k ==> Key(s, list[i]) <= 1) && (k < |list| ==> Key(s, list[k]) > 1)
    ensures DueCount(s, list) == k
  {
    hide Key, DueCount;
    DueMeans(s, list);
    var n := DueCount(s, list);
    var a, b := if n < |list| then Key(s, list[n]) else 2, if k < |list| then Key(s, list[k]) else 2;
  }

  lemma TailKeeps(s: Timers, list: seq<Tid>)
    requires Sorted(s, list) && Distinct(list) && list != []
    ensures Sorted(s, list[1..]) && Distinct(list[1..]) && list[0] !in list[1..]
    ensures forall t :: t in list <==> t == list[0] || t in list[1..]
  {
    hide Key;
    assert list == [list[0]] + list[1..];
  }

  /** The list without its first timer. */
  lemma PopKeeps(s: Timers)
    requires Inv(s, 0) && s.list != []
    ensures var s1 := s.(list := s.list[1..], active := s.active - {s.list[0]});
            && Inv(s1, 0) && s.list[0] !in s1.list && (forall u :: Key(s1, u) == Key(s, u))
            && Without(s1.list, s.list[0]) == s1.list
  {
    hide Without, Ahead, Sorted, Distinct;
    var s1 := s.(list := s.list[1..], active := s.active - {s.list[0]});
    TailKeeps(s, s.list);
    WithoutMembers(s1.list, s.list[0]);
    SameKeys(s, s1, s1.list);
  }

  /** Firing the first timer, which is due: one due timer less, the other due ones next, in the same order. */
  lemma FireKeeps(s: Timers)
    requires Inv(s, 0) && s.list != [] && Key(s, s.list[0]) <= 1
    ensures Inv(Fire(s), 0) && Fire(s).now == s.now && Fire(s).init == s.init && Fire(s).periodic == s.periodic
    ensures var k := DueCount(s, s.list);
            && k >= 1 && DueCount(Fire(s), Fire(s).list) == k - 1 <= |Fire(s).list|
            && Fire(s).list[..k - 1] == s.list[1..k]
  {
    hide Start, Key, DueCount, Without, Inv;
    var t := s.list[0];
    var s1 := s.(list := s.list[1..], active := s.active - {t});
    PopKeeps(s);
    var k := DueOfTail(s);
    if t in s.periodic && t in s.active {
      RestartKeeps(s1, t, k - 1);
    } else {
      InvSorted(s1);
      DueCountIs(s1, s1.list, k - 1);
    }
  }

  lemma InvSorted(s: Timers)
    requires Inv(s, 0)
    ensures Sorted(s, s.list) && Distinct(s.list) && forall t :: t in s.list ==> Key(s, t) <= HALF
  {
  }

  /** The due timers behind a due first one. */
  lemma DueOfTail(s: Timers) returns (k: nat)
    requires Inv(s, 0) && s.list != [] && Key(s, s.list[0]) <= 1
    ensures 1 <= k == DueCount(s, s.list) <= |s.list| && s.list[1..][..k - 1] == s.list[1..k]
    ensures forall i :: 0 <= i < k - 1 ==> Key(s, s.list[1..][i]) <= 1
    ensures k - 1 < |s.list[1..]| ==> Key(s, s.list[1..][k - 1]) > 1
  {
    DueMeans(s, s.list);
    k := DueCount(s, s.list);
    hide Key, DueCount;
  }

  lemma StartFields(s: Timers, t: Tid)
    ensures Start(s, t).now == s.now && Start(s, t).init == s.init && Start(s, t).periodic == s.periodic
  {
  }

  /** A timer that starts again goes behind all due timers. */
  lemma RestartKeeps(s: Timers, t: Tid, k: nat)
    requires Inv(s, 0) && t !in s.list && Without(s.list, t) == s.list && t in s.periodic
    requires k <= |s.list| && (forall i :: 0 <= i < k ==> Key(s, s.list[i]) <= 1)
        && (k < |s.list| ==> Key(s, s.list[k]) > 1)
    ensures Inv(Start(s, t), 0) && Start(s, t).now == s.now && Start(s, t).init == s.init
        && Start(s, t).periodic == s.periodic
    ensures var s' := Start(s, t); DueCount(s', s'.list) == k && s'.list[..k] == s.list[..k]
  {
    hide Key, DueCount, Without, Sorted, Distinct, Start, InsertAt, Ahead;
    var s' := Start(s, t);
    StartKeeps(s, t, 0);
    StartFields(s, t);
    var p := StartPosition(s, t, 0);
    InsertIndex(s.list, p, t);
    assert Key(s', t) >= 2;
    var next := if p < |s.list| then Key(s', s'.list[p + 1]) else 2;
    assert p < |s.list| ==> s.list[p] in s.list;
    forall i | 0 <= i < k
      ensures s'.list[i] == s.list[i] && Key(s', s'.list[i]) <= 1
    {
      assert s.list[i] in s.list;
    }
    if k < |s'.list| && p > k {
      assert s'.list[k] == s.list[k] && s.list[k] in s.list;
    }
    InvSorted(s');
    DueCountIs(s', s'.list, k);
  }

  /** rt_timer_check, k turns of its loop; the second result is what fired. */
  function FireAll(s: Timers, k: nat): (Timers, seq<Tid>)
    decreases k
  {
    if k == 0 || s.list == [] then (s, [])
    else
      var (s', fired) := FireAll(Fire(s), k - 1);
      (s', [s.list[0]] + fired)
  }

  function Check(s: Timers): (Timers, seq<Tid>) { FireAll(s, DueCount(s, s.list)) }

  /** The loop of rt_timer_check fires exactly the due timers, in the order of the list, and leaves none due. */
  lemma {:induction false} CheckFires(s: Timers)
    requires Inv(s, 0)
    ensures var k := DueCount(s, s.list); var (s', fired) := Check(s);
            && fired == s.list[..k] && DueCount(s', s'.list) == 0 && Inv(s', 0) && s'.now == s.now && s'.init == s.init
            && s'.periodic == s.periodic
    decreases DueCount(s, s.list)
  {
    hide Fire, DueCount, Key, Inv, Due, TimeoutOf;
    var k := DueCount(s, s.list);
    if k > 0 {
      FirstDue(s);
      FireKeeps(s);
      CheckFires(Fire(s));
      assert [s.list[0]] + s.list[1..k] == s.list[..k];
    }
  }

  lemma FirstDue(s: Timers)
    requires Inv(s, 0) && DueCount(s, s.list) > 0
    ensures s.list != [] && Key(s, s.list[0]) <= 1
  {
    DueMeans(s, s.list);
  }

  /** With nothing due, all timeouts lie in the window that starts one tick later. */
  lemma NoneDue(s: Timers)
    requires Inv(s, 0) && DueCount(s, s.list) == 0
    ensures Inv(s, 2)
  {
    DueMeans(s, s.list);
    hide Key, DueCount, Sorted, Distinct;
  }
}

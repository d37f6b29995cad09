/**
 The skip list of timer.c: RT_TIMER_SKIP_LIST_LEVEL rows, the last one with all active timers, each
 other one a faster lane over it. Starting, stopping and expiring a timer through the rows does what
 TimerSpec does to the one list.
 */
module TimerSkip {
  import opened Lists
  import opened Bits
  import opened TimerSpec
  import opened TimerRun

  const MASK: nat := 3    // RT_TIMER_SKIP_LIST_MASK

  // ---------- the rows as filters of the last row ----------

  /** The timers of the list that reach h rows up from the last one. */
  ghost function Tall(list: seq<Tid>, heights: map<Tid, nat>, h: nat): seq<Tid> {
    if list == [] then []
    else (if list[0] in heights && heights[list[0]] >= h then [list[0]] else []) + Tall(list[1..], heights, h)
  }

  lemma {:induction false} TallAppend(a: seq<Tid>, b: seq<Tid>, heights: map<Tid, nat>, h: nat)
    ensures Tall(a + b, heights, h) == Tall(a, heights, h) + Tall(b, heights, h)
  {
    if a == [] {
      assert a + b == b;
    } else {
      assert (a + b)[1..] == a[1..] + b;
      TallAppend(a[1..], b, heights, h);
    }
  }

  lemma {:induction false} TallMembers(list: seq<Tid>, heights: map<Tid, nat>, h: nat)
    ensures forall t :: t in Tall(list, heights, h) <==> t in list && t in heights && heights[t] >= h
  {
    if list != [] {
      TallMembers(list[1..], heights, h);
      assert list == [list[0]] + list[1..];
    }
  }

  lemma {:induction false} TallDistinct(list: seq<Tid>, heights: map<Tid, nat>, h: nat)
    requires Distinct(list)
    ensures Distinct(Tall(list, heights, h))
  {
    if list != [] {
      TallDistinct(list[1..], heights, h);
      TallMembers(list[1..], heights, h);
      assert list[0] !in list[1..];
    }
  }

  lemma {:induction false} TallSorted(s: Timers, list: seq<Tid>, heights: map<Tid, nat>, h: nat)
    requires Sorted(s, list)
    ensures Sorted(s, Tall(list, heights, h))
  {
    hide Key;
    if list != [] {
      var rest := Tall(list[1..], heights, h);
      TallSorted(s, list[1..], heights, h);
      TallMembers(list[1..], heights, h);
      forall j | 0 <= j < |rest|
        ensures Key(s, list[0]) <= Key(s, rest[j])
      {
        assert rest[j] in list[1..];
        var i :| 1 <= i < |list| && list[i] == rest[j];
      }
    }
  }

  lemma {:induction false} TallSame(list: seq<Tid>, heights: map<Tid, nat>, heights': map<Tid, nat>, h: nat)
    requires forall t :: t in list ==> (t in heights <==> t in heights') && (t in heights ==> heights'[t] == heights[t])
    ensures Tall(list, heights', h) == Tall(list, heights, h)
  {
    if list != [] {
      assert list[0] in list && forall t :: t in list[1..] ==> t in list;
      TallSame(list[1..], heights, heights', h);
    }
  }

  lemma {:induction false} TallAll(list: seq<Tid>, heights: map<Tid, nat>)
    requires forall t :: t in list ==> t in heights && heights[t] >= 1
    ensures Tall(list, heights, 1) == list
  {
    if list != [] {
      assert list[0] in list && forall t :: t in list[1..] ==> t in list;
      TallAll(list[1..], heights);
    }
  }

  lemma {:induction false} TallWithout(list: seq<Tid>, heights: map<Tid, nat>, h: nat, t: Tid)
    requires Distinct(list)
    ensures Tall(Without(list, t), heights, h) == Without(Tall(list, heights, h), t)
  {
    if list != [] {
      var more, rest := list[1..], Tall(list[1..], heights, h);
      TallMembers(more, heights, h);
      TallDistinct(more, heights, h);
      WithoutMembers(rest, t);
      TallWithout(more, heights, h, t);
      assert list == [list[0]] + more && list[0] !in more;
      hide Distinct;
      WithoutFirst(list[0], rest, t);
      WithoutFirst(list[0], more, t);
      TallFirst(list[0], Without(more, t), heights, h);
      TallFirst(list[0], more, heights, h);
      hide Without, Tall;
    }
  }

  lemma WithoutFirst(x: Tid, rest: seq<Tid>, t: Tid)
    ensures Without([x] + rest, t) == if x == t then rest else [x] + Without(rest, t)
  {
    assert ([x] + rest)[1..] == rest;
  }

  lemma TallFirst(x: Tid, rest: seq<Tid>, heights: map<Tid, nat>, h: nat)
    ensures Tall([x] + rest, heights, h)
         == if x in heights && heights[x] >= h then [x] + Tall(rest, heights, h) else Tall(rest, heights, h)
  {
    assert ([x] + rest)[1..] == rest;
  }

  /** A timer that reaches higher rows is in all rows below: each row is a subsequence of the next. */
  ghost predicate Subsequence(a: seq<Tid>, b: seq<Tid>) {
    if a == [] then true
    else b != [] && (if a[0] == b[0] then Subsequence(a[1..], b[1..]) else Subsequence(a, b[1..]))
  }

  lemma {:induction false} TallSubsequence(list: seq<Tid>, heights: map<Tid, nat>, h: nat, g: nat)
    requires h <= g && Distinct(list)
    ensures Subsequence(Tall(list, heights, g), Tall(list, heights, h))
  {
    if list != [] {
      var a, b := Tall(list[1..], heights, g), Tall(list[1..], heights, h);
      TallSubsequence(list[1..], heights, h, g);
      TallMembers(list[1..], heights, g);
      assert list[0] !in list[1..];
      assert ([list[0]] + a)[1..] == a && ([list[0]] + b)[1..] == b && [] + a == a && [] + b == b;
    }
  }

  // ---------- where a new timer goes in each row ----------

  lemma {:induction false} BeforeSplit(a: seq<Tid>, b: seq<Tid>, s: Timers, x: Tick)
    requires forall t :: t in a ==> !Later(TimeoutOf(s, t), x)
    requires forall t :: t in b ==> Later(TimeoutOf(s, t), x)
    ensures Before(a + b, s, x) == |a|
  {
    hide Later;
    if a == [] {
      assert a + b == b;
      if b != [] {
        assert b[0] in b;
      }
    } else {
      assert a[0] in a && (a + b)[1..] == a[1..] + b;
      BeforeSplit(a[1..], b, s, x);
    }
  }

  /** The new timer's place in a row is the place that cuts the last row where the new timer goes. */
  lemma TallPlace(s: Timers, list: seq<Tid>, heights: map<Tid, nat>, h: nat, x: Tick)
    requires Sorted(s, list) && (forall t :: t in list ==> Key(s, t) <= HALF) && 1 <= Ahead(s.now, x) <= HALF
    ensures var k := Before(list, s, x);
            && Tall(list, heights, h) == Tall(list[..k], heights, h) + Tall(list[k..], heights, h)
            && Before(Tall(list, heights, h), s, x) == |Tall(list[..k], heights, h)|
  {
    var k := Before(list, s, x);
    assert list == list[..k] + list[k..];
    TallAppend(list[..k], list[k..], heights, h);
    TallMembers(list[..k], heights, h);
    TallMembers(list[k..], heights, h);
    NotLater(s, list, x);
    hide Later, Before;
    BeforeSplit(Tall(list[..k], heights, h), Tall(list[k..], heights, h), s, x);
  }

  lemma NotLater(s: Timers, list: seq<Tid>, x: Tick)
    requires Sorted(s, list) && (forall t :: t in list ==> Key(s, t) <= HALF) && 1 <= Ahead(s.now, x) <= HALF
    ensures forall t :: t in list[..Before(list, s, x)] ==> !Later(TimeoutOf(s, t), x)
    ensures forall t :: t in list[Before(list, s, x)..] ==> Later(TimeoutOf(s, t), x)
    ensures forall i :: 0 <= i < |list| ==> (Later(TimeoutOf(s, list[i]), x) <==> i >= Before(list, s, x))
  {
    BeforeMeans(list, s, x);
    var k := Before(list, s, x);
    hide Ahead, Later, Before, Sorted;
    forall i | 0 <= i < |list|
      ensures Later(TimeoutOf(s, list[i]), x) <==> i >= k
    {
      assert list[i] in list && Key(s, list[i]) == Ahead(s.now, TimeoutOf(s, list[i]));
      Comparisons(s.now, TimeoutOf(s, list[i]), x);
    }
  }

  /** Linking the new timer into a row, or not, keeps the row the filter of the last one. */
  lemma TallInserted(s: Timers, list: seq<Tid>, heights: map<Tid, nat>, h: nat, t: Tid, g: nat)
    requires Sorted(s, list) && (forall u :: u in list ==> Key(s, u) <= HALF) && 1 <= Key(s, t) <= HALF && t !in list
    ensures var x := TimeoutOf(s, t); var row := Tall(list, heights, h);
            Tall(InsertAt(list, Before(list, s, x), t), heights[t := g], h)
            == if g >= h then InsertAt(row, Before(row, s, x), t) else row
  {
    var x, heights' := TimeoutOf(s, t), heights[t := g];
    var k := Before(list, s, x);
    assert Key(s, t) == Ahead(s.now, x);
    TallPlace(s, list, heights, h, x);
    TallOfInserted(list, heights, h, t, g, k);
    hide Before, Sorted, Ahead, Key, Tall;
    var a, b := Tall(list[..k], heights, h), Tall(list[k..], heights, h);
    assert (a + b)[..|a|] == a && (a + b)[|a|..] == b;
  }

  lemma TallOfInserted(list: seq<Tid>, heights: map<Tid, nat>, h: nat, t: Tid, g: nat, k: nat)
    requires t !in list && k <= |list|
    ensures Tall(InsertAt(list, k, t), heights[t := g], h)
         == Tall(list[..k], heights, h) + (if g >= h then [t] else []) + Tall(list[k..], heights, h)
  {
    var heights' := heights[t := g];
    TallSame(list[..k], heights, heights', h);
    TallSame(list[k..], heights, heights', h);
    TallAppend(list[..k] + [t], list[k..], heights', h);
    TallAppend(list[..k], [t], heights', h);
    assert [t][1..] == [] && [t] + [] == [t];
  }

  // ---------- timer.c ----------

  function IndexOf(list: seq<Tid>, t: Tid): (i: nat)
    requires t in list
    ensures i < |list| && list[i] == t
  {
    if list[0] == t then 0 else 1 + IndexOf(list[1..], t)
  }

  /** All rows of a list of the given height map. */
  ghost predicate RowsOf(rows: seq<seq<Tid>>, heights: map<Tid, nat>) {
    && rows != []
    && (forall t :: t in rows[|rows| - 1] ==> t in heights && 1 <= heights[t])
    && forall l {:trigger RowIs(rows, heights, l)} :: 0 <= l < |rows| ==> RowIs(rows, heights, l)
  }

  ghost predicate RowIs(rows: seq<seq<Tid>>, heights: map<Tid, nat>, l: nat)
    requires l < |rows|
  {
    rows[l] == Tall(rows[|rows| - 1], heights, |rows| - l)
  }

  /** What the search needs of a row. */
  lemma RowFacts(s: Timers, rows: seq<seq<Tid>>, heights: map<Tid, nat>, l: nat)
    requires RowsOf(rows, heights) && l < |rows| && s.list == rows[|rows| - 1]
    requires Sorted(s, s.list) && Distinct(s.list) && forall t :: t in s.list ==> Key(s, t) <= HALF
    ensures Sorted(s, rows[l]) && Distinct(rows[l]) && forall t :: t in rows[l] ==> Key(s, t) <= HALF
    ensures (forall t :: t in rows[l] ==> t in s.list)
        && (l + 1 < |rows| ==> forall t :: t in rows[l] ==> t in rows[l + 1])
  {
    hide Key;
    var list, L := s.list, |rows|;
    assert RowIs(rows, heights, l);
    TallSorted(s, list, heights, L - l);
    TallDistinct(list, heights, L - l);
    TallMembers(list, heights, L - l);
    if l + 1 < L {
      var m := l + 1;
      assert RowIs(rows, heights, m);
      TallMembers(list, heights, L - m);
    }
  }

  lemma RowsWithout(rows: seq<seq<Tid>>, rows': seq<seq<Tid>>, heights: map<Tid, nat>, t: Tid)
    requires RowsOf(rows, heights) && Distinct(rows[|rows| - 1]) && |rows'| == |rows|
    requires forall l :: 0 <= l < |rows| ==> rows'[l] == Without(rows[l], t)
    ensures RowsOf(rows', heights)
  {
    hide Tall, Without, Distinct;
    var list := rows[|rows| - 1];
    WithoutMembers(list, t);
    forall l | 0 <= l < |rows|
      ensures RowIs(rows', heights, l)
    {
      assert RowIs(rows, heights, l);
      TallWithout(list, heights, |rows| - l, t);
    }
  }

  /** The new timer linked into the last g rows. */
  lemma RowsInserted(s: Timers, rows: seq<seq<Tid>>, rows': seq<seq<Tid>>, heights: map<Tid, nat>, t: Tid, g: nat)
    requires RowsOf(rows, heights) && s.list == rows[|rows| - 1] && Sorted(s, s.list) && t !in s.list
    requires (forall u :: u in s.list ==> Key(s, u) <= HALF) && 1 <= Key(s, t) <= HALF && 1 <= g <= |rows| == |rows'|
    requires forall l :: 0 <= l < |rows| ==>
      rows'[l] == if l >= |rows| - g then InsertAt(rows[l], Before(rows[l], s, TimeoutOf(s, t)), t) else rows[l]
    ensures RowsOf(rows', heights[t := g])
  {
    hide Tall, Key, Sorted, Before, InsertAt;
    var L, x, heights' := |rows|, TimeoutOf(s, t), heights[t := g];
    InsertIndex(s.list, Before(s.list, s, x), t);
    forall l | 0 <= l < L
      ensures RowIs(rows', heights', l)
    {
      assert RowIs(rows, heights, l);
      TallInserted(s, s.list, heights, L - l, t, g);
    }
  }

  lemma KeyIs(s: Timers, t: Tid)
    ensures Key(s, t) == Ahead(s.now, TimeoutOf(s, t))
  {
  }

  lemma InvFacts(s: Timers)
    requires Inv(s, 0)
    ensures Sorted(s, s.list) && Distinct(s.list)
    ensures forall t :: t in s.list ==> Key(s, t) <= HALF && t in s.timeout
  {
  }

  lemma {:induction false} BeforeSame(s: Timers, s': Timers, list: seq<Tid>, x: Tick)
    requires s.timeout == s'.timeout
    ensures Before(list, s, x) == Before(list, s', x)
  {
    hide Later;
    if list != [] {
      BeforeSame(s, s', list[1..], x);
    }
  }

  function Power4(r: nat): (p: nat)
    ensures p > 0
  {
    if r == 0 then 1 else 4 * Power4(r - 1)
  }

  lemma FirstPower()
    ensures Power4(0) == 1
  {
  }

  lemma PowerStep(n: nat, r: nat)
    requires n % Power4(r) == 0
    ensures n / Power4(r) % 4 == 0 <==> n % Power4(r + 1) == 0
    ensures n / Power4(r) % 4 == 0 ==> n / Power4(r) / 4 == n / Power4(r + 1)
  {
    var p := Power4(r);
    assert Power4(r + 1) == 4 * p;
    hide Power4;
    QuarterOf(n, p);
  }

  lemma QuarterOf(n: nat, p: nat)
    requires p > 0 && n % p == 0
    ensures n % (4 * p) == p * (n / p % 4) && n / (4 * p) == n / p / 4
  {
    var q := n / p;
    var k, d := q / 4, q % 4;
    assert n == p * q;
    Shares(p, k, d);
    DivUnique(n, 4 * p, k, p * d);
  }

  lemma Shares(p: nat, k: nat, d: nat)
    ensures p * (4 * k + d) == 4 * p * k + p * d
    ensures p > 0 && d < 4 ==> p * d < 4 * p
  {
  }

  lemma {:induction false} PowersBelow(n: nat, r: nat, q: nat)
    requires r <= q && n % Power4(q) == 0
    ensures n % Power4(r) == 0
  {
    if r < q {
      var p, k := Power4(q - 1), n / Power4(q);
      assert n == 4 * p * k == p * (4 * k);
      DivUnique(n, p, 4 * k, 0);
      PowersBelow(n, r, q - 1);
    }
  }

  lemma ReachedRows(n: nat, g: nat, L: nat)
    requires 1 <= g <= L && n % Power4(g - 1) == 0 && (g < L ==> n % Power4(g) != 0)
    ensures forall r: nat :: r < L ==> (r < g <==> n % Power4(r) == 0)
  {
    forall r: nat | r < L
      ensures r < g <==> n % Power4(r) == 0
    {
      if r < g {
        PowersBelow(n, r, g - 1);
      } else if n % Power4(r) == 0 {
        PowersBelow(n, g, r);
      }
    }
  }

  class SkipTimers {
    const rows: array<seq<Tid>>
    var now: Tick
    var timeout: map<Tid, Tick>
    var init: map<Tid, Tick>
    var periodic: set<Tid>
    var active: set<Tid>
    var randomNr: nat
    ghost var heights: map<Tid, nat>

    ghost function State(): Timers
      reads this, rows
      requires rows.Length >= 1
    {
      Timers(now, rows[rows.Length - 1], timeout, init, periodic, active)
    }

    ghost predicate Valid()
      reads this, rows
    {
      rows.Length >= 1 && RowsOf(rows[..], heights)
    }

    /** All rows empty, as rt_system_timer_init leaves them. */
    constructor (levels: nat)
      requires levels >= 1
      ensures Valid() && Inv(State(), 1) && State().list == [] && fresh(rows) && rows.Length == levels
    {
      rows := new seq<Tid>[levels](_ => []);
      now, timeout, init, periodic, active, randomNr, heights := 0, map[], map[], {}, {}, 0, map[];
      new;
      forall l | 0 <= l < levels
        ensures RowIs(rows[..], heights, l)
      {
      }
    }

    /** _rt_timer_remove */
    method Remove(t: Tid)
      requires Valid() && Distinct(State().list)
      modifies rows
      ensures Valid() && State() == old(State()).(list := Without(old(State().list), t))
    {
      hide RowsOf, Without, Distinct;
      ghost var was := rows[..];
      for i := 0 to rows.Length
        invariant forall l :: 0 <= l < rows.Length ==> rows[l] == if l < i then Without(was[l], t) else was[l]
      {
        rows[i] := Without(rows[i], t);
      }
      RowsWithout(was, rows[..], heights, t);
    }

    /** The inner loop: on from `start` until a timer that expires later. */
    method Walk(row: seq<Tid>, start: nat, x: Tick, ghost s: Timers) returns (k: nat)
      requires rows.Length >= 1 && s == State() && start <= Before(row, s, x) && forall t :: t in row ==> t in timeout
      requires forall i :: 0 <= i < |row| ==> (Later(TimeoutOf(s, row[i]), x) <==> i >= Before(row, s, x))
      ensures k == Before(row, s, x) <= |row|
    {
      hide Before;
      k := start;
      while k < |row|
        invariant k <= Before(row, s, x) <= |row|
      {
        var t := row[k];
        var diff := (timeout[t] - x) % WIDTH;
        assert Later(TimeoutOf(s, row[k]), x) <==> k >= Before(row, s, x);
        if diff == 0 {
          k := k + 1;
          continue;
        } else if diff < HALF {
          break;
        }
        k := k + 1;
      }
    }

    /** The search of rt_timer_start: how far to go in each row. */
    method Search(x: Tick) returns (rowHead: array<nat>)
      requires Valid() && Sorted(State(), State().list) && Distinct(State().list)
      requires (forall t :: t in State().list ==> Key(State(), t) <= HALF) && 1 <= Ahead(now, x) <= HALF
      requires forall t :: t in State().list ==> t in timeout
      ensures fresh(rowHead) && rowHead.Length == rows.Length
      ensures forall l :: 0 <= l < rows.Length ==> rowHead[l] == Before(rows[l], State(), x) <= |rows[l]|
    {
      hide RowsOf, Sorted, Distinct, Key, Ahead, Before, Later;
      ghost var s := State();
      rowHead := new nat[rows.Length](_ => 0);
      var at: int := -1;     // the timer the search stands at; -1 is the row's head
      var level := 0;
      while level < rows.Length
        invariant 0 <= level <= rows.Length
        invariant at >= 0 ==> !Later(TimeoutOf(s, at), x) && (level < rows.Length ==> at in rows[level])
        invariant forall l :: 0 <= l < level ==> rowHead[l] == Before(rows[l], s, x) <= |rows[l]|
      {
        var row := rows[level];
        RowFacts(s, rows[..], heights, level);
        NotLater(s, row, x);
        var k := Walk(row, if at < 0 then 0 else IndexOf(row, at) + 1, x, s);
        rowHead[level] := k;
        if k > 0 {
          at := row[k - 1];
          assert at in row && (level + 1 < rows.Length ==> at in rows[..][level + 1]);
        } else {
          at := -1;
        }
        level := level + 1;
      }
    }

    /**
     The new timer goes into the last row, and into the row r rows above it exactly if 4^r divides the insert
     counter: into every fourth, sixteenth, ... of the timers' rows.
     */
    method LinkRows(t: Tid, rowHead: array<nat>) returns (g: nat)
      requires rowHead.Length == rows.Length >= 1 && randomNr < WIDTH
      requires forall l :: 0 <= l < rows.Length ==> rowHead[l] <= |rows[l]|
      modifies rows, this`randomNr
      ensures 1 <= g <= rows.Length && randomNr == (old(randomNr) + 1) % WIDTH
      ensures forall r: nat :: r < rows.Length ==> (r < g <==> randomNr % Power4(r) == 0)
      ensures forall l :: 0 <= l < rows.Length ==>
        rows[l] == if l >= rows.Length - g then InsertAt(old(rows[l]), rowHead[l], t) else old(rows[l])
    {
      hide InsertAt, Power4;
      FirstPower();
      randomNr := (randomNr + 1) % WIDTH;
      var tstNr := randomNr;
      var L := rows.Length;
      rows[L - 1] := InsertAt(rows[L - 1], rowHead[L - 1], t);
      var rowLvl := 2;
      while rowLvl <= L
        invariant 2 <= rowLvl <= L + 1 && randomNr == (old(randomNr) + 1) % WIDTH
        invariant randomNr % Power4(rowLvl - 2) == 0 && tstNr == randomNr / Power4(rowLvl - 2)
        invariant forall l :: 0 <= l < L ==>
            rows[l] == if l > L - rowLvl then InsertAt(old(rows[l]), rowHead[l], t) else old(rows[l])
      {
        PowerStep(randomNr, rowLvl - 2);
        if tstNr % (MASK + 1) != 0 {
          break;
        }
        rows[L - rowLvl] := InsertAt(rows[L - rowLvl], rowHead[L - rowLvl], t);
        tstNr := tstNr / 4;
        rowLvl := rowLvl + 1;
      }
      g := rowLvl - 1;
      ReachedRows(randomNr, g, L);
    }

    /** rt_timer_start */
    method StartTimer(t: Tid)
      requires Valid() && Inv(State(), 0) && t in init && randomNr < WIDTH
      modifies this, rows
      ensures Valid() && State() == Start(old(State()), t) && randomNr < WIDTH
    {
      hide RowsOf, Inv, Sorted, Distinct, Key, Ahead, Before, Later, Without, InsertAt;
      ghost var s := State();
      InvFacts(s);
      ArmedKeeps(s, t, 0);
      ghost var armed := Armed(s, t);
      Remove(t);
      active := active - {t};
      var x := Plus(now, init[t]);
      timeout := timeout[t := x];
      ghost var a, R := State(), rows[..];
      assert RowsOf(R, heights);
      SameKeys(armed, a, a.list);
      KeyIs(a, t);
      var rowHead := Search(x);
      var g := LinkRows(t, rowHead);
      RowsInserted(a, R, rows[..], heights, t, g);
      heights := heights[t := g];
      active := active + {t};
      BeforeSame(armed, a, a.list, x);
    }

    /** rt_timer_stop */
    method StopTimer(t: Tid) returns (ok: bool)
      requires Valid() && Inv(State(), 0)
      modifies this, rows
      ensures Valid() && State() == Stop(old(State()), t) && ok == (t in old(active)) && randomNr == old(randomNr)
    {
      hide RowsOf, Inv, Sorted, Distinct, Without;
      InvFacts(State());
      if t !in active {
        return false;
      }
      Remove(t);
      active := active - {t};
      ok := true;
    }

    /** One turn of the loop of rt_timer_check: the first timer is taken off, and started again if it is periodic. */
    method FireFirst() returns (t: Tid)
      requires Valid() && Inv(State(), 0) && State().list != [] && Key(State(), State().list[0]) <= 1
          && randomNr < WIDTH
      requires forall u :: u in periodic ==> u in init
      modifies this, rows
      ensures Valid() && t == old(State().list[0]) && State() == Fire(old(State())) && randomNr < WIDTH
    {
      hide RowsOf, Sorted, Distinct, Key, Start;
      ghost var s := State();
      PopKeeps(s);
      InvFacts(s);
      FirstOff(s.list);
      hide Inv, Without;
      t := rows[rows.Length - 1][0];
      Remove(t);
      if t in periodic && t in active {
        active := active - {t};
        StartTimer(t);
      } else {
        active := active - {t};
      }
    }

    /** rt_timer_check */
    method CheckTimers() returns (fired: seq<Tid>)
      requires Valid() && Inv(State(), 0) && randomNr < WIDTH && forall u :: u in periodic ==> u in init
      modifies this, rows
      ensures Valid() && (State(), fired) == Check(old(State())) && Inv(State(), 0) && randomNr < WIDTH
    {
      hide RowsOf, Inv, Key, Fire, DueCount, Check, Due;
      fired := [];
      ghost var s0 := State();
      assert [] + Check(s0).1 == Check(s0).1;
      while rows[rows.Length - 1] != []
        invariant Valid() && Inv(State(), 0) && randomNr < WIDTH && State().init == s0.init
            && State().periodic == s0.periodic
        invariant Check(s0) == (Check(State()).0, fired + Check(State()).1)
        decreases DueCount(State(), State().list)
      {
        var t := rows[rows.Length - 1][0];
        ghost var s := State();
        InvFacts(s);
        DueFirst(s);
        if (now - timeout[t]) % WIDTH < HALF {
          FireKeeps(s);
          CheckUnroll(s);
          var u := FireFirst();
          assert fired + ([t] + Check(State()).1) == (fired + [t]) + Check(State()).1;
          fired := fired + [t];
        } else {
          break;
        }
      }
      CheckNone(State());
      assert fired + [] == fired;
    }

    /** The timer part of rt_tick_increase. */
    method TickIncrease() returns (fired: seq<Tid>)
      requires Valid() && Inv(State(), 1) && randomNr < WIDTH && forall u :: u in periodic ==> u in init
      modifies this, rows
      ensures Valid() && (State(), fired) == TickStep(old(State())) && randomNr < WIDTH
    {
      TickWindow(State());
      hide RowsOf, Inv, Check, Key;
      now := (now + 1) % WIDTH;
      fired := CheckTimers();
    }
  }

  lemma FirstOff(list: seq<Tid>)
    requires Distinct(list) && list != []
    ensures Without(list, list[0]) == list[1..]
  {
  }

  lemma DueFirst(s: Timers)
    requires Inv(s, 0) && s.list != []
    ensures s.list[0] in s.timeout
    ensures ((s.now - TimeoutOf(s, s.list[0])) % WIDTH < HALF) <==> Key(s, s.list[0]) <= 1
    ensures Key(s, s.list[0]) <= 1 <==> DueCount(s, s.list) > 0
  {
    DueMeans(s, s.list);
    DueKey(s.now, TimeoutOf(s, s.list[0]));
    assert s.list[0] in s.list;
  }

  lemma CheckUnroll(s: Timers)
    requires Inv(s, 0) && s.list != [] && Key(s, s.list[0]) <= 1
    ensures Check(s) == (Check(Fire(s)).0, [s.list[0]] + Check(Fire(s)).1)
  {
    FireKeeps(s);
  }

  lemma CheckNone(s: Timers)
    requires s.list == [] || DueCount(s, s.list) == 0
    ensures Check(s) == (s, [])
  {
  }

  /** Any row is a faster lane over the next: the same timers in the same order, some left out. */
  lemma RowsNest(rows: seq<seq<Tid>>, heights: map<Tid, nat>, l: nat)
    requires RowsOf(rows, heights) && Distinct(rows[|rows| - 1]) && l + 1 < |rows|
    ensures Subsequence(rows[l], rows[l + 1])
  {
    var m := l + 1;
    assert RowIs(rows, heights, l) && RowIs(rows, heights, m);
    TallSubsequence(rows[|rows| - 1], heights, |rows| - m, |rows| - l);
  }
}

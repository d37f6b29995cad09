/**
 scheduler.c and thread.c: one queue of ready threads per priority, the bitmap of priorities with
 ready threads, and the choice of the thread to run. A context switch is the change of the current thread.
 */
module Scheduler {
  import opened Lists
  import opened Bits
  import opened ReadyBitmap

  type Tid = nat

  datatype Stat = Fresh | Ready | Suspended | Closed     // RT_THREAD_INIT, READY, SUSPEND, CLOSE

  datatype Thread = Thread(
    stat: Stat, initPriority: nat, currentPriority: nat,
    number: nat, numberMask: seq<bool>, highMask: seq<bool>)

  /** "recalculate priority attribute" */
  function WithPriority(thread: Thread, levels: nat, p: nat): Thread {
    if TwoLevels(levels) then
      thread.(currentPriority := p, number := p / 8, numberMask := OneBit(p / 8, 32), highMask := OneBit(p % 8, 8))
    else thread.(currentPriority := p, numberMask := OneBit(p, 32))
  }

  /** Where thread u is queued: every other thread by its state, t where `listed` says. */
  ghost predicate QueuedAt(threads: map<Tid, Thread>, u: Tid, p: nat, t: int, listed: bool) {
    u in threads && threads[u].currentPriority == p && (if u == t then listed else threads[u].stat.Ready?)
  }

  class Scheduler {
    const levels: nat                       // RT_THREAD_PRIORITY_MAX
    const queues: array<seq<Tid>>           // rt_thread_priority_table
    const table: array<seq<bool>>           // rt_thread_ready_table
    var group: Word                         // rt_thread_ready_priority_group
    var threads: map<Tid, Thread>
    var current: int                        // rt_current_thread, -1 for none
    var currentPriority: nat
    var lockNest: int

    ghost function Map(): Bitmap
      reads this, table
    {
      Bitmap(group, table[..])
    }

    /** The bitmap marks the priorities whose queue is not empty, and queues hold threads as they should. */
    ghost predicate But(t: int, listed: bool)
      reads this, queues, table
    {
      && queues.Length == levels && Shape(Map(), levels)
      && (forall p :: 0 <= p < levels ==> (Marked(Map(), levels, p) <==> queues[p] != []))
      && (forall p :: 0 <= p < levels ==> Distinct(queues[p]))
      && (forall p, u: Tid :: 0 <= p < levels ==> (u in queues[p] <==> QueuedAt(threads, u, p, t, listed)))
      && (forall u :: u in threads ==> Sound(threads[u]))
    }

    /** A thread's attributes belong to its priority from its start on. */
    ghost predicate Sound(thread: Thread) {
      && thread.initPriority < levels && thread.currentPriority < levels
      && (thread.stat.Fresh? || WithPriority(thread, levels, thread.currentPriority) == thread)
    }

    /** Each queue holds exactly the ready threads of its priority. */
    ghost predicate Valid()
      reads this, queues, table
    {
      But(-1, false)
    }

    /** rt_system_scheduler_init */
    constructor (levels: nat)
      requires 1 <= levels <= 256
      ensures Valid() && threads == map[] && current == -1 && lockNest == 0 && this.levels == levels
      ensures fresh(queues) && fresh(table)
    {
      this.levels := levels;
      queues := new seq<Tid>[levels](_ => []);
      table := new seq<bool>[32](_ => Zero(8));
      group := Zero(32);
      threads, current, currentPriority, lockNest := map[], -1, levels - 1, 0;
      new;
      Blank(Map(), levels);
    }

    /** rt_schedule_insert_thread */
    method InsertThread(t: Tid)
      requires But(t, false) && t in threads && !threads[t].stat.Fresh?
      modifies this`threads, this`group, queues, table
      ensures Valid() && threads == old(threads)[t := old(threads[t]).(stat := Ready)]
      ensures forall p :: 0 <= p < levels ==>
        queues[p] == if p == threads[t].currentPriority then old(queues[p]) + [t] else old(queues[p])
    {
      hide Distinct, Marked, Shape;
      ghost var map0 := Map();
      threads := threads[t := threads[t].(stat := Ready)];
      var thread := threads[t];
      var p := thread.currentPriority;
      AppendDistinct(queues[p], t);
      SetMarks(map0, levels, p);
      ShapeRows(map0, levels, p);
      queues[p] := queues[p] + [t];
      if TwoLevels(levels) {
        table[thread.number] := Or(table[thread.number], thread.highMask);
      }
      group := Or(group, thread.numberMask);
      assert Map() == SetBit(map0, levels, p);
    }

    /** rt_schedule_remove_thread: off whatever list the thread is on */
    method RemoveThread(t: Tid, ghost listed: bool)
      requires But(t, listed) && t in threads && !threads[t].stat.Fresh?
      modifies this`group, queues, table
      ensures But(t, false)
      ensures forall p :: 0 <= p < levels ==>
        queues[p] == if p == threads[t].currentPriority then Without(old(queues[p]), t) else old(queues[p])
    {
      hide Distinct, Marked, Shape, Without;
      ghost var map0 := Map();
      var thread := threads[t];
      var p := thread.currentPriority;
      WithoutMembers(queues[p], t);
      ClearMarks(map0, levels, p);
      ShapeRows(map0, levels, p);
      queues[p] := Without(queues[p], t);
      if queues[p] == [] {
        if TwoLevels(levels) {
          table[thread.number] := AndNot(table[thread.number], thread.highMask);
          if table[thread.number] == Zero(8) {
            group := AndNot(group, thread.numberMask);
          }
        } else {
          group := AndNot(group, thread.numberMask);
        }
        assert Map() == ClearBit(map0, levels, p);
      }
    }

    /** rt_schedule: the first thread of the most urgent queue runs next, unless the scheduler is locked. */
    method Schedule()
      requires Valid() && exists t :: t in threads && threads[t].stat.Ready?
      modifies this`current, this`currentPriority
      ensures lockNest != 0 ==> current == old(current)
      ensures lockNest == 0 ==>
        && current >= 0 && current in threads && threads[current].stat.Ready?
        && queues[threads[current].currentPriority] != [] && queues[threads[current].currentPriority][0] == current
        && forall t :: t in threads && threads[t].stat.Ready? ==>
          threads[current].currentPriority <= threads[t].currentPriority
      ensures current != old(current) ==> current in threads && currentPriority == threads[current].currentPriority
    {
      hide Distinct, Marked, Shape, Ffs, Highest;
      ghost var t :| t in threads && threads[t].stat.Ready?;
      if lockNest == 0 {
        ghost var p := threads[t].currentPriority;
        assert t in queues[p];
        HighestIsLowest(Map(), levels, p);
        HighestIs(Map(), levels);
        var highest;
        if TwoLevels(levels) {
          var number := Ffs(group) - 1;
          highest := number * 8 + Ffs(table[number] + Zero(24)) - 1;
        } else {
          highest := Ffs(group) - 1;
        }
        var to := queues[highest][0];
        assert to in queues[highest];
        forall u | u in threads && threads[u].stat.Ready?
          ensures highest <= threads[u].currentPriority
        {
          assert u in queues[threads[u].currentPriority];
        }
        if to != current {
          currentPriority := highest;
          current := to;
        }
      }
    }

    /** rt_thread_resume */
    method Resume(t: Tid) returns (ok: bool)
      requires Valid() && t in threads
      modifies this`threads, this`group, queues, table
      ensures Valid() && ok == old(threads[t]).stat.Suspended?
      ensures threads == if ok then old(threads)[t := old(threads[t]).(stat := Ready)] else old(threads)
      ensures forall p :: 0 <= p < levels ==>
        queues[p] == if ok && p == threads[t].currentPriority then old(queues[p]) + [t] else old(queues[p])
    {
      hide Distinct, Marked, Shape, Without;
      if !threads[t].stat.Suspended? {
        return false;
      }
      assert But(t, false);
      InsertThread(t);
      ok := true;
    }

    /** rt_thread_suspend */
    method Suspend(t: Tid) returns (ok: bool)
      requires Valid() && t in threads
      modifies this`threads, this`group, queues, table
      ensures Valid() && ok == old(threads[t]).stat.Ready?
      ensures threads == if ok then old(threads)[t := old(threads[t]).(stat := Suspended)] else old(threads)
      ensures forall p :: 0 <= p < levels ==>
        queues[p] == if ok && p == threads[t].currentPriority then Without(old(queues[p]), t) else old(queues[p])
    {
      hide Distinct, Marked, Shape, Without;
      if !threads[t].stat.Ready? {
        return false;
      }
      threads := threads[t := threads[t].(stat := Suspended)];
      assert But(t, true);
      RemoveThread(t, true);
      ok := true;
    }

    /** rt_thread_startup, up to its call of rt_schedule */
    method Startup(t: Tid)
      requires Valid() && t in threads && threads[t].stat.Fresh?
      modifies this`threads, this`group, queues, table
      ensures Valid() && t in threads && threads[t].stat.Ready?
          && threads[t].currentPriority == old(threads[t]).initPriority
      ensures threads == old(threads)[t := threads[t]]
      ensures forall p :: 0 <= p < levels ==>
        queues[p] == if p == threads[t].currentPriority then old(queues[p]) + [t] else old(queues[p])
    {
      hide Distinct, Marked, Shape, Without;
      threads := threads[t := WithPriority(threads[t], levels, threads[t].initPriority).(stat := Suspended)];
      assert But(t, false);
      var ok := Resume(t);
    }

    /** rt_thread_timeout, up to its call of rt_schedule */
    method ThreadTimeout(t: Tid)
      requires Valid() && t in threads && threads[t].stat.Suspended?
      modifies this`threads, this`group, queues, table
      ensures Valid() && threads == old(threads)[t := old(threads[t]).(stat := Ready)]
      ensures forall p :: 0 <= p < levels ==>
        queues[p] == if p == threads[t].currentPriority then old(queues[p]) + [t] else old(queues[p])
    {
      hide Distinct, Marked, Shape, Without;
      assert But(t, false);
      InsertThread(t);
    }

    /** RT_THREAD_CTRL_CHANGE_PRIORITY */
    method ChangePriority(t: Tid, p: nat)
      requires Valid() && t in threads && !threads[t].stat.Fresh? && p < levels
      modifies this`threads, this`group, queues, table
      ensures Valid() && threads == old(threads)[t := WithPriority(old(threads[t]), levels, p)]
      ensures !threads[t].stat.Ready? ==> forall q :: 0 <= q < levels ==> queues[q] == old(queues[q])
      ensures threads[t].stat.Ready? ==> forall q :: 0 <= q < levels ==>
        queues[q] == (if q == old(threads[t]).currentPriority then Without(old(queues[q]), t) else old(queues[q]))
                     + (if q == p then [t] else [])
    {
      hide Distinct, Marked, Shape, Without;
      if threads[t].stat.Ready? {
        assert But(t, true);
        RemoveThread(t, true);
        threads := threads[t := WithPriority(threads[t], levels, p)];
        assert But(t, false);
        InsertThread(t);
      } else {
        threads := threads[t := WithPriority(threads[t], levels, p)];
      }
    }

    /** rt_thread_delete: the thread leaves its list, ready or not. */
    method Delete(t: Tid)
      requires Valid() && t in threads && !threads[t].stat.Fresh?
      modifies this`threads, this`group, queues, table
      ensures Valid() && threads == old(threads)[t := old(threads[t]).(stat := Closed)]
      ensures forall p :: 0 <= p < levels ==>
        queues[p] == if p == threads[t].currentPriority then Without(old(queues[p]), t) else old(queues[p])
    {
      hide Distinct, Marked, Shape, Without;
      ghost var listed := threads[t].stat.Ready?;
      assert But(t, listed);
      RemoveThread(t, listed);
      threads := threads[t := threads[t].(stat := Closed)];
    }

    /** rt_thread_yield: the current thread goes to the end of its queue, if it shares it. */
    method Yield() returns (moved: bool)
      requires Valid() && current >= 0 && current in threads
      modifies queues
      ensures Valid()
      ensures var p := threads[current].currentPriority;
        && moved == (threads[current].stat.Ready? && |old(queues[p])| > 1)
        && forall q :: 0 <= q < levels ==>
             queues[q] == if moved && q == p then Without(old(queues[q]), current) + [current] else old(queues[q])
    {
      hide Distinct, Marked, Shape, Without;
      var thread := threads[current];
      var p := thread.currentPriority;
      if thread.stat.Ready? && |queues[p]| != 1 {
        assert current in queues[p];
        WithoutMembers(queues[p], current);
        AppendDistinct(Without(queues[p], current), current);
        queues[p] := Without(queues[p], current) + [current];
        return true;
      }
      moved := false;
    }
  }

  lemma HighestIs(b: Bitmap, levels: nat)
    requires Shape(b, levels) && Highest(b, levels) >= 0
    ensures TwoLevels(levels) ==> 0 <= Ffs(b.group) - 1 < 32 && |b.table| == 32 && |b.table[Ffs(b.group) - 1]| == 8
                                  && Highest(b, levels) == (Ffs(b.group) - 1) * 8
                                    + Ffs(b.table[Ffs(b.group) - 1] + Zero(24)) - 1
    ensures !TwoLevels(levels) ==> Highest(b, levels) == Ffs(b.group) - 1
  {
    hide Ffs;
  }

  lemma AppendDistinct(list: seq<Tid>, t: Tid)
    requires Distinct(list) && t !in list
    ensures Distinct(list + [t])
  {
  }

  lemma ShapeRows(b: Bitmap, levels: nat, p: nat)
    requires Shape(b, levels) && p < levels
    ensures |b.table| == 32 && p / 8 < 32 && |b.table[p / 8]| == 8 && (!TwoLevels(levels) ==> p < 32)
  {
    Digits(p, p);
  }

  lemma Blank(b: Bitmap, levels: nat)
    requires 1 <= levels <= 256 && b.group == Zero(32) && b.table == seq(32, _ => Zero(8))
    ensures Shape(b, levels) && forall p :: 0 <= p < levels ==> !Marked(b, levels, p)
  {
    forall q | 0 <= q < 256
      ensures b.table[q / 8] == Zero(8) && 0 <= q % 8 < 8
    {
      Digits(q, q);
    }
  }
}

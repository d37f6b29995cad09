/**
 The suspended-thread list of an IPC object: rt_ipc_list_suspend queues a thread first come first
 served or by priority, rt_ipc_list_resume takes the first one. A list is the sequence of its threads.
 */
module WaitList {
  import opened Lists

  type Tid = nat

  datatype Flag = FIFO | PRIO

  type Priorities = Tid -> nat

  /** Where a thread of priority p goes: before the first waiter that is less urgent. */
  function Position(list: seq<Tid>, p: nat, prio: Priorities): (k: nat)
    ensures k <= |list|
    ensures forall i :: 0 <= i < k ==> prio(list[i]) <= p
    ensures k < |list| ==> p < prio(list[k])
  {
    if list == [] || p < prio(list[0]) then 0 else 1 + Position(list[1..], p, prio)
  }

  /** Where a thread goes: to the end, or by priority. */
  function Place(list: seq<Tid>, t: Tid, flag: Flag, prio: Priorities): (k: nat)
    ensures k <= |list|
  {
    if flag == FIFO then |list| else Position(list, prio(t), prio)
  }

  function Queued(list: seq<Tid>, t: Tid, flag: Flag, prio: Priorities): seq<Tid> {
    var k := Place(list, t, flag, prio);
    list[..k] + [t] + list[k..]
  }

  ghost predicate Sorted(list: seq<Tid>, prio: Priorities) {
    forall i, j :: 0 <= i < j < |list| ==> prio(list[i]) <= prio(list[j])
  }

  /** The newcomer's place, and where the others went. */
  lemma QueuedIndex(list: seq<Tid>, t: Tid, flag: Flag, prio: Priorities)
    ensures var k, q := Place(list, t, flag, prio), Queued(list, t, flag, prio);
      && |q| == |list| + 1 && q[k] == t
      && forall i {:trigger q[i]} :: 0 <= i <= |list| ==>
        q[i] == if i < k then list[i] else if i == k then t else list[i - 1]
  {
    hide Position;
  }

  /** Below the place all waiters are as urgent as the newcomer, from there on none is. */
  lemma PlaceSplits(list: seq<Tid>, p: nat, prio: Priorities)
    requires Sorted(list, prio)
    ensures forall i :: 0 <= i < |list| ==> (prio(list[i]) <= p <==> i < Position(list, p, prio))
  {
    var k := Position(list, p, prio);
    hide Position;
    forall i | k <= i < |list|
      ensures p < prio(list[i])
    {
      assert i == k || prio(list[k]) <= prio(list[i]);
    }
  }

  /** A priority queue stays sorted, and a newcomer stands behind all waiters that are as urgent. */
  lemma QueuedSorted(list: seq<Tid>, t: Tid, prio: Priorities)
    requires Sorted(list, prio)
    ensures Sorted(Queued(list, t, PRIO, prio), prio)
    ensures var k := Position(list, prio(t), prio);
            && |Queued(list, t, PRIO, prio)| == |list| + 1 && Queued(list, t, PRIO, prio)[k] == t
            && (forall i :: 0 <= i < |list| ==> (prio(list[i]) <= prio(t) <==> i < k))
  {
    hide Position, Queued;
    PlaceSplits(list, prio(t), prio);
    QueuedIndex(list, t, PRIO, prio);
    InsertedSorted(list, Position(list, prio(t), prio), t, Queued(list, t, PRIO, prio), prio);
  }

  lemma InsertedSorted(list: seq<Tid>, k: nat, t: Tid, q: seq<Tid>, prio: Priorities)
    requires Sorted(list, prio) && k <= |list| && |q| == |list| + 1
    requires forall i {:trigger q[i]} :: 0 <= i <= |list| ==>
        q[i] == if i < k then list[i] else if i == k then t else list[i - 1]
    requires forall i :: 0 <= i < |list| ==> (prio(list[i]) <= prio(t) <==> i < k)
    ensures Sorted(q, prio)
  {
    forall i, j | 0 <= i < j < |q|
      ensures prio(q[i]) <= prio(q[j])
    {
    }
  }

  lemma QueuedMembers(list: seq<Tid>, t: Tid, flag: Flag, prio: Priorities)
    ensures forall x :: x in Queued(list, t, flag, prio) <==> x in list || x == t
    ensures Distinct(list) && t !in list ==> Distinct(Queued(list, t, flag, prio))
    ensures |Queued(list, t, flag, prio)| == |list| + 1
  {
    hide Queued, Place;
    QueuedIndex(list, t, flag, prio);
    InsertedMembers(list, Place(list, t, flag, prio), t, Queued(list, t, flag, prio));
  }

  lemma InsertedMembers(list: seq<Tid>, k: nat, t: Tid, q: seq<Tid>)
    requires k <= |list| && |q| == |list| + 1
    requires forall i {:trigger q[i]} :: 0 <= i <= |list| ==>
        q[i] == if i < k then list[i] else if i == k then t else list[i - 1]
    ensures forall x :: x in q <==> x in list || x == t
    ensures Distinct(list) && t !in list ==> Distinct(q)
  {
    forall x | x in list || x == t
      ensures x in q
    {
      if x in list {
        var i :| 0 <= i < |list| && list[i] == x;
        assert q[if i < k then i else i + 1] == x;
      } else {
        assert q[k] == x;
      }
    }
  }

  /** The others keep their order: without the newcomer the list is as it was. */
  lemma QueuedAround(list: seq<Tid>, t: Tid, flag: Flag, prio: Priorities)
    requires t !in list
    ensures Without(Queued(list, t, flag, prio), t) == list
  {
    hide Position;
    var k := Place(list, t, flag, prio);
    WithoutMiddle(list[..k], list[k..], t);
    assert list == list[..k] + list[k..];
  }

  lemma {:induction false} WithoutMiddle(a: seq<Tid>, b: seq<Tid>, t: Tid)
    requires t !in a
    ensures Without(a + [t] + b, t) == a + b
  {
    hide Without;
    if a == [] {
      WithoutHead(b, t);
      assert a + [t] + b == [t] + b && a + b == b;
    } else {
      WithoutMiddle(a[1..], b, t);
      WithoutFirst(a[0], a[1..] + [t] + b, t);
      assert a + [t] + b == [a[0]] + (a[1..] + [t] + b);
      assert a + b == [a[0]] + (a[1..] + b);
    }
  }

  lemma WithoutHead(b: seq<Tid>, t: Tid)
    ensures Without([t] + b, t) == b
  {
  }

  lemma WithoutFirst(x: Tid, rest: seq<Tid>, t: Tid)
    requires x != t
    ensures Without([x] + rest, t) == [x] + Without(rest, t)
  {
  }

  /** The list after the threads ts have been queued one after another. */
  function Arrivals(list: seq<Tid>, ts: seq<Tid>, flag: Flag, prio: Priorities): seq<Tid>
    decreases ts
  {
    if ts == [] then list else Arrivals(Queued(list, ts[0], flag, prio), ts[1..], flag, prio)
  }

  /** First come, first served: the threads stand in the order of their arrival, whatever their priorities. */
  lemma {:induction false} FifoOrder(list: seq<Tid>, ts: seq<Tid>, prio: Priorities)
    ensures Arrivals(list, ts, FIFO, prio) == list + ts
    decreases ts
  {
    if ts == [] {
      assert list + ts == list;
    } else {
      QueuedLast(list, ts[0], prio);
      hide Queued;
      FifoOrder(list + [ts[0]], ts[1..], prio);
      assert list + ts == list + [ts[0]] + ts[1..];
    }
  }

  lemma QueuedLast(list: seq<Tid>, t: Tid, prio: Priorities)
    ensures Queued(list, t, FIFO, prio) == list + [t]
  {
  }

  lemma {:induction false} WithoutSorted(list: seq<Tid>, t: Tid, prio: Priorities)
    requires Sorted(list, prio) && Distinct(list)
    ensures Sorted(Without(list, t), prio)
  {
    if list != [] && list[0] != t {
      WithoutSorted(list[1..], t, prio);
      WithoutMembers(list[1..], t);
      var rest := Without(list[1..], t);
      forall j | 0 <= j < |rest|
        ensures prio(list[0]) <= prio(rest[j])
      {
        assert rest[j] in list[1..];
        var i :| 1 <= i < |list| && list[i] == rest[j];
      }
    }
  }

  /** The loop of rt_ipc_list_suspend. */
  method Suspend(list: seq<Tid>, t: Tid, flag: Flag, prio: Priorities) returns (list': seq<Tid>)
    ensures list' == Queued(list, t, flag, prio)
  {
    if flag == FIFO {
      list' := list + [t];
      assert list[|list|..] == [];
    } else {
      var n := 0;
      while n < |list|
        invariant n <= |list|
        invariant n + Position(list[n..], prio(t), prio) == Position(list, prio(t), prio)
      {
        var sthread := list[n];
        if prio(t) < prio(sthread) {
          list' := list[..n] + [t] + list[n..];
          return;
        }
        assert list[n..][1..] == list[n + 1..];
        n := n + 1;
      }
      list' := list + [t];
      assert list[..n] == list && list[n..] == [];
    }
  }
}

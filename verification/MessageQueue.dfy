/**
 The message queue of ipc.c: a pool of nodes, a free list and the queue itself, linked through the
 nodes. Sending and receiving each have two regions with interrupts disabled; between them the node
 belongs to the call, and any other call's regions may come in between.
 */
module MessageQueue {
  import opened Lists

  type Tid = nat
  type Message = seq<int>

  const NULL: int := -1

  /** Node i of the list is linked to the one after it. */
  ghost predicate LinkedAt(next: seq<int>, list: seq<nat>, i: nat)
    requires i < |list|
  {
    list[i] < |next| && next[list[i]] == if i + 1 < |list| then list[i + 1] else NULL
  }

  /** A singly linked list from head to a null pointer. */
  ghost predicate Chain(next: seq<int>, head: int, list: seq<nat>) {
    && head == (if list == [] then NULL else list[0]) && Distinct(list)
    && forall i {:trigger LinkedAt(next, list, i)} :: 0 <= i < |list| ==> LinkedAt(next, list, i)
  }

  lemma ChainKept(next: seq<int>, next': seq<int>, head: int, list: seq<nat>)
    requires Chain(next, head, list) && |next'| == |next| && forall k :: k in list && k < |next| ==> next'[k] == next[k]
    ensures Chain(next', head, list)
  {
    forall i | 0 <= i < |list|
      ensures LinkedAt(next', list, i)
    {
      assert LinkedAt(next, list, i) && list[i] in list;
    }
  }

  lemma ChainPop(next: seq<int>, head: int, list: seq<nat>)
    requires Chain(next, head, list) && list != []
    ensures head == list[0] < |next| && Chain(next, next[head], list[1..]) && list[0] !in list[1..]
    ensures Distinct(list) && (next[head] == NULL <==> |list| == 1)
    ensures forall k :: k in list <==> k == list[0] || k in list[1..]
  {
    assert list == [list[0]] + list[1..];
    assert LinkedAt(next, list, 0);
    forall i | 0 <= i < |list| - 1
      ensures LinkedAt(next, list[1..], i)
    {
      var j := i + 1;
      assert LinkedAt(next, list, j);
    }
  }

  lemma ChainPush(next: seq<int>, next': seq<int>, head: int, list: seq<nat>, k: nat)
    requires Chain(next, head, list) && k !in list && k < |next| == |next'| && next' == next[k := head]
    ensures Chain(next', k, [k] + list) && forall x :: x in [k] + list <==> x == k || x in list
  {
    forall i | 0 <= i < |list| + 1
      ensures LinkedAt(next', [k] + list, i)
    {
      if i > 0 {
        var j := i - 1;
        assert LinkedAt(next, list, j) && list[j] in list;
      }
    }
  }

  lemma ChainAppend(next: seq<int>, next': seq<int>, head: int, list: seq<nat>, k: nat)
    requires Chain(next, head, list) && k !in list && k < |next| == |next'| && next[k] == NULL
    requires list != [] ==> list[|list| - 1] < |next|
    requires next' == if list == [] then next else next[list[|list| - 1] := k]
    ensures Chain(next', if list == [] then k else head, list + [k])
    ensures forall x :: x in list + [k] <==> x == k || x in list
  {
    forall i | 0 <= i < |list| + 1
      ensures LinkedAt(next', list + [k], i)
    {
      if i < |list| {
        assert LinkedAt(next, list, i);
      }
    }
  }

  lemma ChainLast(next: seq<int>, head: int, list: seq<nat>)
    requires Chain(next, head, list) && list != []
    ensures list[|list| - 1] < |next| && list[|list| - 1] in list
  {
    var i := |list| - 1;
    assert LinkedAt(next, list, i);
  }

  /** Every node is in exactly one place: the free list, the queue, or the hands of one call. */
  ghost predicate Partition(n: nat, queue: seq<nat>, free: seq<nat>, held: map<Tid, nat>) {
    && (forall k :: k in queue ==> k < n && k !in free && k !in held.Values)
    && (forall k :: k in free ==> k < n && k !in held.Values)
    && (forall t :: t in held ==> held[t] < n)
    && (forall t, u :: t in held && u in held && t != u ==> held[t] != held[u])
    && (forall k: nat :: k < n ==> k in queue || k in free || k in held.Values)
  }

  lemma Grab(held: map<Tid, nat>, t: Tid, k: nat)
    requires t !in held
    ensures held[t := k].Values == held.Values + {k}
  {
    var h := held[t := k];
    assert forall u :: u in held ==> h[u] == held[u];
    assert h[t] == k;
  }

  lemma Drop(held: map<Tid, nat>, t: Tid)
    requires t in held && forall u, v :: u in held && v in held && u != v ==> held[u] != held[v]
    ensures (held - {t}).Values == held.Values - {held[t]}
  {
    var h := held - {t};
    assert forall u :: u in h ==> h[u] == held[u];
    forall k | k in held.Values - {held[t]}
      ensures k in h.Values
    {
      var u :| u in held && held[u] == k;
      assert h[u] == k;
    }
  }

  /** A node goes from one of the lists to the hands of t. */
  lemma Grabbed(n: nat, queue: seq<nat>, free: seq<nat>, held: map<Tid, nat>, t: Tid, k: nat, queue': seq<nat>,
        free': seq<nat>)
    requires Partition(n, queue, free, held) && t !in held && (k in queue || k in free)
    requires forall x :: x in queue' <==> x in queue && x != k
    requires forall x :: x in free' <==> x in free && x != k
    ensures Partition(n, queue', free', held[t := k])
  {
    Grab(held, t, k);
  }

  /** The node of t goes to one of the lists. */
  lemma Dropped(n: nat, queue: seq<nat>, free: seq<nat>, held: map<Tid, nat>, t: Tid, toQueue: bool, queue': seq<nat>,
        free': seq<nat>)
    requires Partition(n, queue, free, held) && t in held
    requires forall x :: x in queue' <==> x in queue || (toQueue && x == held[t])
    requires forall x :: x in free' <==> x in free || (!toQueue && x == held[t])
    ensures Partition(n, queue', free', held - {t})
  {
    Drop(held, t);
  }

  /** Every message taken is still in the node its receiver holds. */
  ghost predicate StillHeld(data: seq<Message>, held: map<Tid, nat>, took: map<Tid, Message>) {
    forall t :: t in took ==> t in held && held[t] < |data| && data[held[t]] == took[t]
  }

  lemma HeldOn(data: seq<Message>, held: map<Tid, nat>, took: map<Tid, Message>, t: Tid)
    requires StillHeld(data, held, took)
    ensures t !in took ==> StillHeld(data, held - {t}, took)
    ensures StillHeld(data, held - {t}, took - {t})
    ensures t in took ==> t in held
  {
  }

  lemma HeldMore(data: seq<Message>, held: map<Tid, nat>, took: map<Tid, Message>, t: Tid, k: nat)
    requires StillHeld(data, held, took) && t !in held && k < |data|
    ensures StillHeld(data, held[t := k], took) && StillHeld(data, held[t := k], took[t := data[k]])
  {
  }

  lemma HeldWrite(data: seq<Message>, held: map<Tid, nat>, took: map<Tid, Message>, t: Tid, message: Message)
    requires StillHeld(data, held, took) && t in held && t !in took && held[t] < |data|
    requires forall u :: u in held && u != t ==> held[u] != held[t]
    ensures StillHeld(data[held[t] := message], held, took)
  {
  }

  ghost predicate Linked(next: seq<int>, head: int, tail: int, freeHead: int, queue: seq<nat>, free: seq<nat>,
        held: map<Tid, nat>) {
    && Chain(next, head, queue) && Chain(next, freeHead, free)
    && tail == (if queue == [] then NULL else queue[|queue| - 1])
    && Partition(|next|, queue, free, held)
  }

  lemma LinkedParts(next: seq<int>, head: int, tail: int, freeHead: int, queue: seq<nat>, free: seq<nat>,
        held: map<Tid, nat>)
    requires Linked(next, head, tail, freeHead, queue, free, held)
    ensures Chain(next, head, queue) && Chain(next, freeHead, free) && Partition(|next|, queue, free, held)
    ensures tail == (if queue == [] then NULL else queue[|queue| - 1])
    ensures forall u :: u in held ==> held[u] < |next| && held[u] !in queue && held[u] !in free
    ensures forall u, v :: u in held && v in held && u != v ==> held[u] != held[v]
    ensures forall k :: k in queue || k in free ==> k < |next|
    ensures forall k :: k in queue ==> k !in free
  {
  }

  lemma LinkedAgain(next: seq<int>, head: int, tail: int, freeHead: int, queue: seq<nat>, free: seq<nat>,
        held: map<Tid, nat>)
    requires Chain(next, head, queue) && Chain(next, freeHead, free) && Partition(|next|, queue, free, held)
    requires tail == (if queue == [] then NULL else queue[|queue| - 1])
    ensures Linked(next, head, tail, freeHead, queue, free, held)
  {
  }

  /** The node of t linked in before all others. */
  lemma PushedFront(next: seq<int>, next': seq<int>, head: int, tail: int, freeHead: int,
                    queue: seq<nat>, free: seq<nat>, held: map<Tid, nat>, t: Tid)
    requires Linked(next, head, tail, freeHead, queue, free, held) && t in held && held[t] < |next|
        && next' == next[held[t] := head]
    ensures var last := if tail == NULL then held[t] else tail;
      Linked(next', held[t], last, freeHead, [held[t]] + queue, free, held - {t})
  {
    LinkedParts(next, head, tail, freeHead, queue, free, held);
    LastOfPush(queue, held[t]);
    hide Chain, Partition;
    ChainPush(next, next', head, queue, held[t]);
    ChainKept(next, next', freeHead, free);
    Dropped(|next|, queue, free, held, t, true, [held[t]] + queue, free);
  }

  /** The node of t, whose link is null, linked in behind all others. */
  lemma PushedBack(next: seq<int>, next': seq<int>, head: int, tail: int, freeHead: int,
                   queue: seq<nat>, free: seq<nat>, held: map<Tid, nat>, t: Tid)
    requires Linked(next, head, tail, freeHead, queue, free, held) && t in held && held[t] < |next|
        && next[held[t]] == NULL
    requires tail == NULL ==> next' == next
    requires tail != NULL ==> 0 <= tail < |next| && next' == next[tail := held[t]]
    ensures var first := if head == NULL then held[t] else head;
      Linked(next', first, held[t], freeHead, queue + [held[t]], free, held - {t})
  {
    LinkedParts(next, head, tail, freeHead, queue, free, held);
    FreeHead(next, head, queue);
    if queue != [] {
      ChainLast(next, head, queue);
    }
    hide Chain, Partition;
    ChainAppend(next, next', head, queue, held[t]);
    ChainKept(next, next', freeHead, free);
    Dropped(|next|, queue, free, held, t, true, queue + [held[t]], free);
  }

  /** A node goes from the queue to the free list. */
  lemma Emptied(n: nat, queue: seq<nat>, free: seq<nat>, held: map<Tid, nat>, k: nat, queue': seq<nat>, free': seq<nat>)
    requires Partition(n, queue, free, held) && k in queue
    requires forall x :: x in queue' <==> x in queue && x != k
    requires forall x :: x in free' <==> x in free || x == k
    ensures Partition(n, queue', free', held)
  {
  }

  class Queue {
    const next: array<int>
    const data: array<Message>
    var head: int
    var tail: int
    var freeHead: int
    var entry: nat
    /** The local variable msg of the calls that are between their two regions. */
    var held: map<Tid, nat>
    ghost var queue: seq<nat>
    ghost var free: seq<nat>
    /** The message that was at the front when a receiver took its node. */
    ghost var took: map<Tid, Message>

    /** Both lists are in order, the tail is the last node of the queue, and no node is lost or in two places. */
    ghost predicate Links()
      reads this, next, data
    {
      next.Length == data.Length && Linked(next[..], head, tail, freeHead, queue, free, held)
    }

    ghost predicate Valid()
      reads this, next, data
    {
      Links() && entry == |queue| && StillHeld(data[..], held, took)
    }

    /** The messages in the queue, first to be received first. */
    ghost function Contents(): (c: seq<Message>)
      reads this, next, data
      requires Links()
    {
      Mail(data[..], queue)
    }

    /** What a call holds between its regions: a node, its link and its message. */
    ghost function Hand(t: Tid): (nat, int, Message)
      reads this, next, data
      requires Links() && t in held
    {
      (held[t], next[held[t]], data[held[t]])
    }

    /** rt_mq_init: all nodes on the free list, the last one first. */
    constructor (next: array<int>, data: array<Message>)
      requires next.Length == data.Length
      modifies next
      ensures Valid() && this.next == next && this.data == data && queue == [] && held == map[] && took == map[]
          && |free| == next.Length
    {
      this.next, this.data := next, data;
      head, tail, freeHead, entry, held, queue, free, took := NULL, NULL, NULL, 0, map[], [], [], map[];
      new;
      for temp := 0 to next.Length
        invariant Chain(next[..], freeHead, free) && |free| == temp && forall k :: k in free <==> 0 <= k < temp
        invariant head == tail == NULL && entry == 0 && held == map[] && took == map[] && queue == []
      {
        ghost var was := next[..];
        next[temp] := freeHead;
        ChainPush(was, next[..], freeHead, free, temp);
        freeHead := temp;
        free := [temp] + free;
      }
    }

    /** First region of rt_mq_send and rt_mq_urgent: a node off the free list. */
    method Obtain(t: Tid) returns (ok: bool)
      requires Valid() && t !in held
      modifies this
      ensures Valid() && took == old(took) && ok == (old(free) != []) && Contents() == old(Contents())
          && queue == old(queue)
      ensures forall u :: u in old(held) ==> u in held && Hand(u) == old(Hand(u))
      ensures ok ==> held == old(held)[t := old(free)[0]] && free == old(free)[1..]
      ensures !ok ==> held == old(held) && free == old(free)
    {
      hide Chain, Mail, Partition, StillHeld, Linked;
      LinkedParts(next[..], head, tail, freeHead, queue, free, held);
      FreeHead(next[..], freeHead, free);
      if freeHead == NULL {
        return false;
      }
      ChainPop(next[..], freeHead, free);
      Grabbed(next.Length, queue, free, held, t, freeHead, queue, free[1..]);
      HeldMore(data[..], held, took, t, freeHead);
      held := held[t := freeHead];
      freeHead := next[freeHead];
      free := free[1..];
      LinkedAgain(next[..], head, tail, freeHead, queue, free, held);
      ok := true;
    }

    /** Between the regions of a sender: rt_mq_send clears the node's link; both copy the message. */
    method CopyIn(t: Tid, message: Message, urgent: bool)
      requires Valid() && t in held && t !in took
      modifies next, data
      ensures Valid() && Contents() == old(Contents())
      ensures forall u :: u in held && u != t ==> Hand(u) == old(Hand(u))
      ensures Hand(t).2 == message && (!urgent ==> Hand(t).1 == NULL)
    {
      hide Chain, Mail, Partition, StillHeld, Linked;
      LinkedParts(next[..], head, tail, freeHead, queue, free, held);
      ghost var was, before := next[..], data[..];
      var msg := held[t];
      if !urgent {
        next[msg] := NULL;
      }
      HeldWrite(data[..], held, took, t, message);
      data[msg] := message;
      ChainKept(was, next[..], head, queue);
      ChainKept(was, next[..], freeHead, free);
      MailKept(before, data[..], queue);
      LinkedAgain(next[..], head, tail, freeHead, queue, free, held);
    }

    /** Second region of rt_mq_send: the message goes to the end of the queue. */
    method LinkBack(t: Tid)
      requires Valid() && t in held && t !in took && Hand(t).1 == NULL
      modifies this, next
      ensures Valid() && took == old(took) && Contents() == old(Contents()) + [old(Hand(t)).2]
          && held == old(held) - {t}
      ensures forall u :: u in held ==> Hand(u) == old(Hand(u))
    {
      hide Chain, Mail, Partition, StillHeld, Linked;
      LinkedParts(next[..], head, tail, freeHead, queue, free, held);
      TailIn(next[..], head, queue);
      ghost var was, h, l := next[..], head, tail;
      var msg := held[t];
      if tail != NULL {
        next[tail] := msg;
      }
      tail := msg;
      if head == NULL {
        head := msg;
      }
      entry := entry + 1;
      PushedBack(was, next[..], h, l, freeHead, queue, free, held, t);
      MailAppend(data[..], queue, msg);
      HeldOn(data[..], held, took, t);
      held, queue := held - {t}, queue + [msg];
    }

    /** Second region of rt_mq_urgent: the message goes to the front. */
    method LinkFront(t: Tid)
      requires Valid() && t in held && t !in took
      modifies this, next
      ensures Valid() && took == old(took) && Contents() == [old(Hand(t)).2] + old(Contents())
          && held == old(held) - {t}
      ensures forall u :: u in held ==> Hand(u) == old(Hand(u))
    {
      hide Chain, Mail, Partition, StillHeld, Linked;
      LinkedParts(next[..], head, tail, freeHead, queue, free, held);
      ghost var was, h, l := next[..], head, tail;
      var msg := held[t];
      next[msg] := head;
      head := msg;
      if tail == NULL {
        tail := msg;
      }
      entry := entry + 1;
      PushedFront(was, next[..], h, l, freeHead, queue, free, held, t);
      MailPush(data[..], queue, msg);
      HeldOn(data[..], held, took, t);
      held, queue := held - {t}, [msg] + queue;
    }

    /** First region of rt_mq_recv, the queue not being empty: the front node off the queue. */
    method TakeFront(t: Tid)
      requires Valid() && t !in held && entry > 0
      modifies this
      ensures Valid() && t in held && old(Contents()) == [Hand(t).2] + Contents() && held == old(held)[t := held[t]]
      ensures old(Contents()) != [] && took == old(took)[t := old(Contents())[0]]
      ensures forall u :: u in old(held) ==> u in held && Hand(u) == old(Hand(u))
    {
      hide Chain, Mail, Partition, StillHeld, Linked;
      LinkedParts(next[..], head, tail, freeHead, queue, free, held);
      ChainPop(next[..], head, queue);
      MailPush(data[..], queue[1..], queue[0]);
      assert [queue[0]] + queue[1..] == queue;
      FreeHead(next[..], head, queue);
      LastOfTail(queue);
      var msg := head;
      head := next[msg];
      if tail == msg {
        tail := NULL;
      }
      entry := entry - 1;
      Grabbed(next.Length, queue, free, held, t, msg, queue[1..], free);
      HeldMore(data[..], held, took, t, msg);
      held := held[t := msg];
      took := took[t := data[msg]];
      queue := queue[1..];
      LinkedAgain(next[..], head, tail, freeHead, queue, free, held);
    }

    /**
     rt_mq_recv copies the message out of its node with interrupts enabled: whatever other calls did
     since, it is the message that was at the front when the node was taken.
     */
    method CopyOut(t: Tid) returns (message: Message)
      requires Valid() && t in took
      ensures message == took[t]
    {
      message := data[held[t]];
    }

    /** Second region of rt_mq_recv: the node goes to the free list. */
    method GiveBack(t: Tid)
      requires Valid() && t in took
      modifies this, next
      ensures Valid() && took == old(took) - {t} && Contents() == old(Contents()) && held == old(held) - {t}
          && |free| == old(|free|) + 1
      ensures forall u :: u in held ==> Hand(u) == old(Hand(u))
    {
      hide Chain, Mail, Partition, StillHeld, Linked;
      LinkedParts(next[..], head, tail, freeHead, queue, free, held);
      HeldOn(data[..], held, took, t);
      ghost var was := next[..];
      var msg := held[t];
      FreeHead(was, freeHead, free);
      next[msg] := freeHead;
      ChainPush(was, next[..], freeHead, free, msg);
      ChainKept(was, next[..], head, queue);
      freeHead := msg;
      Dropped(next.Length, queue, free, held, t, false, queue, [msg] + free);
      held, free, took := held - {t}, [msg] + free, took - {t};
      LinkedAgain(next[..], head, tail, freeHead, queue, free, held);
    }

    /** RT_IPC_CMD_RESET: the whole queue goes to the free list; calls in between keep their nodes. */
    method Reset()
      requires Valid()
      modifies this, next
      ensures Valid() && Contents() == [] && took == old(took) && held == old(held) && |free| == old(|free| + |queue|)
      ensures forall u :: u in held ==> Hand(u) == old(Hand(u))
    {
      hide Chain, Mail, Partition, StillHeld, Linked;
      LinkedParts(next[..], head, tail, freeHead, queue, free, held);
      FreeHead(next[..], head, queue);
      while head != NULL
        invariant Links() && held == old(held) && took == old(took) && |free| + |queue| == old(|free| + |queue|)
        invariant head == NULL <==> queue == []
        invariant forall u :: u in held ==> Hand(u) == old(Hand(u))
        decreases |queue|
      {
        ghost var was := next[..];
        LinkedParts(was, head, tail, freeHead, queue, free, held);
        ChainPop(was, head, queue);
        FreeHead(was, freeHead, free);
        LastOfTail(queue);
        var msg := head;
        head := next[msg];
        if tail == msg {
          tail := NULL;
        }
        next[msg] := freeHead;
        ChainPush(was, next[..], freeHead, free, msg);
        ChainKept(was, next[..], head, queue[1..]);
        freeHead := msg;
        Emptied(next.Length, queue, free, held, msg, queue[1..], [msg] + free);
        queue, free := queue[1..], [msg] + free;
        LinkedAgain(next[..], head, tail, freeHead, queue, free, held);
        FreeHead(next[..], head, queue);
      }
      entry := 0;
      NoMail(data[..]);
    }
  }

  lemma LastOfTail(list: seq<nat>)
    requires list != [] && Distinct(list)
    ensures |list| == 1 <==> list[|list| - 1] == list[0]
    ensures |list| > 1 ==> list[1..][|list[1..]| - 1] == list[|list| - 1]
  {
  }

  lemma TailIn(next: seq<int>, head: int, list: seq<nat>)
    requires Chain(next, head, list)
    ensures list != [] ==> list[|list| - 1] < |next| && list[|list| - 1] in list
  {
    if list != [] {
      ChainLast(next, head, list);
    }
  }

  lemma LastOfPush(list: seq<nat>, k: nat)
    ensures var q := [k] + list; q != [] && q[|q| - 1] == if list == [] then k else list[|list| - 1]
  {
  }

  lemma NoMail(data: seq<Message>)
    ensures Mail(data, []) == []
  {
  }

  lemma MailAppend(data: seq<Message>, list: seq<nat>, k: nat)
    requires k < |data|
    ensures Mail(data, list + [k]) == Mail(data, list) + [data[k]]
  {
  }

  lemma MailPush(data: seq<Message>, list: seq<nat>, k: nat)
    requires k < |data|
    ensures Mail(data, [k] + list) == [data[k]] + Mail(data, list)
  {
  }

  ghost function Mail(data: seq<Message>, list: seq<nat>): seq<Message> {
    seq(|list|, i requires 0 <= i < |list| => if list[i] < |data| then data[list[i]] else [])
  }

  lemma MailKept(data: seq<Message>, data': seq<Message>, list: seq<nat>)
    requires |data'| == |data| && forall k :: k in list && k < |data| ==> data'[k] == data[k]
    ensures Mail(data', list) == Mail(data, list)
  {
    assert forall i :: 0 <= i < |list| ==> list[i] in list;
  }

  lemma FreeHead(next: seq<int>, head: int, list: seq<nat>)
    requires Chain(next, head, list)
    ensures head == NULL <==> list == []
    ensures head == (if list == [] then NULL else list[0])
  {
  }
}

/**
 The mailbox of ipc.c: a ring of mails, a list of suspended receivers and one of suspended senders.
 Every step below is one region with interrupts disabled (or one timer expiry), so a run is any
 interleaving of such steps by any number of threads.
 */
module Mailbox {
  import opened Lists
  import opened WaitList

  datatype Side = Receiver | Sender

  /** What a blocked call still holds on its stack. */
  datatype Call = Call(side: Side, mail: int, timeout: int)

  datatype Mb = Mb(
    size: nat, pool: seq<int>, inOffset: nat, outOffset: nat, entry: nat,
    receivers: seq<Tid>,          // parent.suspend_thread
    senders: seq<Tid>,            // suspend_sender_thread
    calls: map<Tid, Call>,        // the calls that were blocked and have not returned
    awakeReceivers: set<Tid>,     // resumed with error EOK, loop test not yet run again
    awakeSenders: set<Tid>,
    expired: set<Tid>)            // resumed by rt_thread_timeout: error is -RT_ETIMEOUT

  datatype Result = Blocked | Received(mail: int) | Accepted(mail: int) | Failed | NoResult

  datatype Event =
    | RecvEnter(t: Tid, timeout: int)
    | RecvAgain(t: Tid, elapsed: nat)
    | SendEnter(t: Tid, mail: int, timeout: int)
    | SendAgain(t: Tid, elapsed: nat)
    | Timeout(t: Tid)
    | GiveUp(t: Tid)

  function Init(size: nat, pool: seq<int>): Mb {
    Mb(size, pool, 0, 0, 0, [], [], map[], {}, {}, {})
  }

  function Advance(offset: nat, size: nat): nat { if offset + 1 >= size then 0 else offset + 1 }

  /** The loop test of rt_mb_recv and what follows it, up to the next suspension or return. */
  function Receive(s: Mb, t: Tid, timeout: int, flag: Flag, prio: Priorities): (Mb, Result)
    requires s.outOffset < |s.pool| || s.entry == 0
  {
    if s.entry == 0 then
      if timeout == 0 then (s, Failed)
      else (s.(receivers := Queued(s.receivers, t, flag, prio), calls := s.calls[t := Call(Receiver, 0, timeout)]),
        Blocked)
    else
      var s' := s.(outOffset := Advance(s.outOffset, s.size), entry := s.entry - 1);
      (if s.senders == [] then s'
       else s'.(senders := s.senders[1..], awakeSenders := s.awakeSenders + {s.senders[0]}),
       Received(s.pool[s.outOffset]))
  }

  /** The loop test of rt_mb_send_wait and what follows it. */
  function Post(s: Mb, t: Tid, mail: int, timeout: int, flag: Flag, prio: Priorities): (Mb, Result)
    requires s.inOffset < |s.pool| || s.entry == s.size
  {
    if s.entry == s.size then
      if timeout == 0 then (s, Failed)
      else (s.(senders := Queued(s.senders, t, flag, prio), calls := s.calls[t := Call(Sender, mail, timeout)]),
        Blocked)
    else
      var s' := s.(pool := s.pool[s.inOffset := mail], inOffset := Advance(s.inOffset, s.size), entry := s.entry + 1);
      (if s.receivers == [] then s'
       else s'.(receivers := s.receivers[1..], awakeReceivers := s.awakeReceivers + {s.receivers[0]}),
       Accepted(mail))
  }

  /** The waiting time that is left; waiting forever stays forever. */
  function Left(timeout: int, elapsed: nat): int {
    if timeout > 0 then if timeout - elapsed < 0 then 0 else timeout - elapsed else timeout
  }

  // ---------- the invariant ----------

  /** Where mail i from the oldest on is. */
  function Slot(s: Mb, i: nat): nat {
    if s.outOffset + i >= s.size then s.outOffset + i - s.size else s.outOffset + i
  }

  /** The mails in the ring, oldest first. */
  function Contents(s: Mb): seq<int>
    requires RingOk(s)
  {
    seq(s.entry, i requires 0 <= i < s.entry => s.pool[Slot(s, i)])
  }

  predicate RingOk(s: Mb) {
    && |s.pool| == s.size && s.entry <= s.size
    && (if s.size == 0 then s.inOffset == s.outOffset == 0
        else s.inOffset < s.size && s.outOffset < s.size && s.inOffset == Slot(s, s.entry))
  }

  ghost predicate Suspended(s: Mb, t: Tid, side: Side) {
    t in s.calls && s.calls[t].side == side && s.calls[t].timeout != 0 && t !in s.expired
  }

  /** Every blocked call is in exactly one place. */
  ghost predicate PlacesOk(s: Mb) {
    && Distinct(s.receivers) && Distinct(s.senders)
    && (forall t :: t in s.receivers ==> Suspended(s, t, Receiver) && t !in s.awakeReceivers)
    && (forall t :: t in s.senders ==> Suspended(s, t, Sender) && t !in s.awakeSenders)
    && (forall t :: t in s.awakeReceivers ==> t in s.calls && s.calls[t].side == Receiver && t !in s.expired)
    && (forall t :: t in s.awakeSenders ==> t in s.calls && s.calls[t].side == Sender && t !in s.expired)
    && (forall t :: t in s.expired ==> t in s.calls)
    && (forall t :: t in s.calls ==>
      t in s.receivers || t in s.senders || t in s.awakeReceivers || t in s.awakeSenders || t in s.expired)
  }

  /** No lost wake-up, on both sides. */
  ghost predicate Woken(s: Mb) {
    && (s.receivers != [] ==> s.entry <= |s.awakeReceivers|)
    && (s.senders != [] ==> s.size - s.entry <= |s.awakeSenders|)
  }

  ghost predicate Inv(s: Mb) { RingOk(s) && PlacesOk(s) && Woken(s) }

  // ---------- steps and runs ----------

  ghost predicate Enabled(s: Mb, e: Event) {
    match e
    case RecvEnter(t, _) => t !in s.calls
    case SendEnter(t, _, _) => t !in s.calls
    case RecvAgain(t, _) => t in s.awakeReceivers && t in s.calls
    case SendAgain(t, _) => t in s.awakeSenders && t in s.calls
    case Timeout(t) => (t in s.receivers || t in s.senders) && t in s.calls && s.calls[t].timeout > 0
    case GiveUp(t) => t in s.expired
  }

  /** The call of t returns or starts over. */
  function Leave(s: Mb, t: Tid): Mb {
    s.(calls := s.calls - {t}, awakeReceivers := s.awakeReceivers - {t}, awakeSenders := s.awakeSenders - {t},
       expired := s.expired - {t})
  }

  function Step(s: Mb, e: Event, flag: Flag, prio: Priorities): (Mb, Result)
    requires RingOk(s) && Enabled(s, e)
  {
    match e
    case RecvEnter(t, timeout) => Receive(s, t, timeout, flag, prio)
    case SendEnter(t, mail, timeout) => Post(s, t, mail, timeout, flag, prio)
    case RecvAgain(t, elapsed) => Receive(Leave(s, t), t, Left(s.calls[t].timeout, elapsed), flag, prio)
    case SendAgain(t, elapsed) => Post(Leave(s, t), t, s.calls[t].mail, Left(s.calls[t].timeout, elapsed), flag, prio)
    case Timeout(t) =>
      (s.(receivers := Without(s.receivers, t), senders := Without(s.senders, t), expired := s.expired + {t}), NoResult)
    case GiveUp(t) => (Leave(s, t), Failed)
  }

  // ---------- the ring is a queue ----------

  lemma Taken(s: Mb, s': Mb)
    requires RingOk(s) && s.entry > 0 && s'.size == s.size && s'.pool == s.pool && s'.inOffset == s.inOffset
    requires s'.outOffset == Advance(s.outOffset, s.size) && s'.entry == s.entry - 1
    ensures RingOk(s') && Contents(s) == [s.pool[s.outOffset]] + Contents(s')
  {
    assert forall i :: 1 <= i < s.entry ==> Contents(s)[i] == Contents(s')[i - 1];
  }

  lemma Added(s: Mb, s': Mb, mail: int)
    requires RingOk(s) && s.entry < s.size && s'.size == s.size && s'.pool == s.pool[s.inOffset := mail]
    requires s'.outOffset == s.outOffset && s'.inOffset == Advance(s.inOffset, s.size) && s'.entry == s.entry + 1
    ensures RingOk(s') && Contents(s') == Contents(s) + [mail]
  {
    assert forall i :: 0 <= i < s.entry ==> Slot(s, i) != s.inOffset;
  }

  // ---------- every step keeps the invariant ----------

  lemma ReceivePlaces(s: Mb, t: Tid, timeout: int, flag: Flag, prio: Priorities)
    requires PlacesOk(s) && t !in s.calls && (s.outOffset < |s.pool| || s.entry == 0)
    ensures PlacesOk(Receive(s, t, timeout, flag, prio).0)
  {
    hide Queued;
    if s.entry == 0 {
      QueuedMembers(s.receivers, t, flag, prio);
    } else if s.senders != [] {
      assert s.senders == [s.senders[0]] + s.senders[1..];
    }
  }

  lemma PostPlaces(s: Mb, t: Tid, mail: int, timeout: int, flag: Flag, prio: Priorities)
    requires PlacesOk(s) && t !in s.calls && (s.inOffset < |s.pool| || s.entry == s.size)
    ensures PlacesOk(Post(s, t, mail, timeout, flag, prio).0)
  {
    hide Queued, Advance;
    if s.entry == s.size {
      QueuedMembers(s.senders, t, flag, prio);
    } else if s.receivers != [] {
      assert s.receivers == [s.receivers[0]] + s.receivers[1..];
    }
  }

  /** A receiver that runs its loop test may be one of the awake: then one wake-up more is at hand. */
  lemma ReceiveWoken(s: Mb, t: Tid, timeout: int, flag: Flag, prio: Priorities)
    requires RingOk(s) && PlacesOk(s)
    requires s.receivers != [] ==> s.entry <= |s.awakeReceivers| + 1
    requires s.senders != [] ==> s.size - s.entry <= |s.awakeSenders|
    ensures Woken(Receive(s, t, timeout, flag, prio).0)
  {
    hide Queued;
    if s.entry > 0 && s.senders != [] {
      assert s.senders[0] in s.senders;
    }
  }

  lemma PostWoken(s: Mb, t: Tid, mail: int, timeout: int, flag: Flag, prio: Priorities)
    requires RingOk(s) && PlacesOk(s)
    requires s.receivers != [] ==> s.entry <= |s.awakeReceivers|
    requires s.senders != [] ==> s.size - s.entry <= |s.awakeSenders| + 1
    ensures Woken(Post(s, t, mail, timeout, flag, prio).0)
  {
    hide Queued;
    if s.entry < s.size && s.receivers != [] {
      assert s.receivers[0] in s.receivers;
    }
  }

  /** Mails come out of the ring in the order they went in. */
  ghost predicate Conserves(s: Mb, r: Result, s': Mb) {
    && RingOk(s) && RingOk(s')
    && Contents(s) + (if r.Accepted? then [r.mail] else []) == (if r.Received? then [r.mail] else []) + Contents(s')
  }

  lemma SameRing(s: Mb, s': Mb)
    requires RingOk(s) && s'.size == s.size && s'.pool == s.pool && s'.entry == s.entry
    requires s'.inOffset == s.inOffset && s'.outOffset == s.outOffset
    ensures RingOk(s') && Contents(s') == Contents(s)
  {
  }

  lemma ReceiveConserves(s: Mb, t: Tid, timeout: int, flag: Flag, prio: Priorities)
    requires RingOk(s)
    ensures var (s', r) := Receive(s, t, timeout, flag, prio); Conserves(s, r, s')
  {
    hide Contents, Queued, Slot;
    var (s', r) := Receive(s, t, timeout, flag, prio);
    if s.entry > 0 {
      Taken(s, s');
      assert Contents(s) + [] == Contents(s);
    } else {
      SameRing(s, s');
      assert Contents(s) + [] == [] + Contents(s');
    }
  }

  lemma PostConserves(s: Mb, t: Tid, mail: int, timeout: int, flag: Flag, prio: Priorities)
    requires RingOk(s)
    ensures var (s', r) := Post(s, t, mail, timeout, flag, prio);
        Conserves(s, r, s') && (r.Accepted? ==> r.mail == mail)
  {
    hide Contents, Queued, Slot;
    var (s', r) := Post(s, t, mail, timeout, flag, prio);
    if s.entry < s.size {
      Added(s, s', mail);
      assert Contents(s') == [] + Contents(s');
    } else {
      SameRing(s, s');
      assert Contents(s) + [] == [] + Contents(s');
    }
  }

  lemma LeavePlaces(s: Mb, t: Tid)
    requires PlacesOk(s) && (t in s.awakeReceivers || t in s.awakeSenders || t in s.expired)
    ensures PlacesOk(Leave(s, t)) && t !in Leave(s, t).calls
  {
  }

  lemma ExpirePlaces(s: Mb, t: Tid)
    requires PlacesOk(s) && (t in s.receivers || t in s.senders)
    ensures PlacesOk(s.(receivers := Without(s.receivers, t), senders := Without(s.senders, t), expired :=
        s.expired + {t}))
  {
    WithoutMembers(s.receivers, t);
    WithoutMembers(s.senders, t);
    hide Without;
  }

  /** Leaving takes at most the one wake-up of t away. */
  lemma LeaveWoken(s: Mb, t: Tid)
    requires Inv(s) && (t in s.awakeReceivers || t in s.awakeSenders || t in s.expired)
    ensures RingOk(Leave(s, t)) && Contents(Leave(s, t)) == Contents(s)
    ensures s.receivers != [] ==> s.entry <= |Leave(s, t).awakeReceivers| + (if t in s.awakeReceivers then 1 else 0)
    ensures s.senders != [] ==> s.size - s.entry <= |Leave(s, t).awakeSenders| + (if t in s.awakeSenders then 1 else 0)
    ensures t in s.awakeReceivers ==> t !in s.awakeSenders && t in s.calls
    ensures t in s.awakeSenders ==> t !in s.awakeReceivers && t in s.calls
    ensures t in s.expired ==> t !in s.awakeReceivers && t !in s.awakeSenders
  {
    assert t !in s.awakeReceivers ==> s.awakeReceivers - {t} == s.awakeReceivers;
    assert t !in s.awakeSenders ==> s.awakeSenders - {t} == s.awakeSenders;
  }

  lemma WithoutEmpty(list: seq<Tid>, t: Tid)
    ensures list == [] ==> Without(list, t) == []
  {
  }

  lemma ExpireWoken(s: Mb, t: Tid)
    requires Woken(s) && RingOk(s)
    ensures var s' := s.(receivers := Without(s.receivers, t), senders := Without(s.senders, t), expired :=
        s.expired + {t});
            Woken(s') && Conserves(s, NoResult, s')
  {
    hide Without;
    WithoutEmpty(s.receivers, t);
    WithoutEmpty(s.senders, t);
    var s' := s.(receivers := Without(s.receivers, t), senders := Without(s.senders, t), expired := s.expired + {t});
    assert Contents(s') == Contents(s);
    assert Contents(s) + [] == [] + Contents(s');
  }

  lemma StepKeeps(s: Mb, e: Event, flag: Flag, prio: Priorities)
    requires Inv(s) && Enabled(s, e)
    ensures var (s', r) := Step(s, e, flag, prio); Inv(s') && Conserves(s, r, s')
  {
    hide Receive, Post, PlacesOk, Contents, Without;
    match e
    case RecvEnter(t, timeout) =>
      ReceivePlaces(s, t, timeout, flag, prio);
      ReceiveWoken(s, t, timeout, flag, prio);
      ReceiveConserves(s, t, timeout, flag, prio);
    case SendEnter(t, mail, timeout) =>
      PostPlaces(s, t, mail, timeout, flag, prio);
      PostWoken(s, t, mail, timeout, flag, prio);
      PostConserves(s, t, mail, timeout, flag, prio);
    case RecvAgain(t, elapsed) =>
      LeavePlaces(s, t);
      LeaveWoken(s, t);
      var timeout := Left(s.calls[t].timeout, elapsed);
      ReceivePlaces(Leave(s, t), t, timeout, flag, prio);
      ReceiveWoken(Leave(s, t), t, timeout, flag, prio);
      ReceiveConserves(Leave(s, t), t, timeout, flag, prio);
    case SendAgain(t, elapsed) =>
      LeavePlaces(s, t);
      LeaveWoken(s, t);
      var timeout := Left(s.calls[t].timeout, elapsed);
      PostPlaces(Leave(s, t), t, s.calls[t].mail, timeout, flag, prio);
      PostWoken(Leave(s, t), t, s.calls[t].mail, timeout, flag, prio);
      PostConserves(Leave(s, t), t, s.calls[t].mail, timeout, flag, prio);
    case Timeout(t) =>
      ExpirePlaces(s, t);
      ExpireWoken(s, t);
    case GiveUp(t) =>
      LeavePlaces(s, t);
      LeaveWoken(s, t);
      assert Contents(s) + [] == [] + Contents(Leave(s, t));
  }

  // ---------- runs ----------

  ghost predicate Runs(s: Mb, es: seq<Event>, flag: Flag, prio: Priorities)
    requires Inv(s)
    decreases es
  {
    es != [] ==>
      && Enabled(s, es[0])
      && (StepKeeps(s, es[0], flag, prio);
          Runs(Step(s, es[0], flag, prio).0, es[1..], flag, prio))
  }

  /** The state after a run, the mails accepted in it and the mails received, in order. */
  ghost function Outcome(s: Mb, es: seq<Event>, flag: Flag, prio: Priorities): (Mb, seq<int>, seq<int>)
    requires Inv(s) && Runs(s, es, flag, prio)
    decreases es
  {
    if es == [] then (s, [], [])
    else
      StepKeeps(s, es[0], flag, prio);
      var (s1, r) := Step(s, es[0], flag, prio);
      var (s2, sent, got) := Outcome(s1, es[1..], flag, prio);
      (s2, (if r.Accepted? then [r.mail] else []) + sent, (if r.Received? then [r.mail] else []) + got)
  }

  lemma InitInv(size: nat, pool: seq<int>)
    requires |pool| == size
    ensures Inv(Init(size, pool)) && Contents(Init(size, pool)) == []
  {
  }

  lemma Regroup(c: seq<int>, a: seq<int>, b: seq<int>, c1: seq<int>, sent: seq<int>, got: seq<int>, c2: seq<int>)
    requires c + a == b + c1 && c1 + sent == got + c2
    ensures c + (a + sent) == (b + got) + c2
  {
    calc {
      c + (a + sent);
      (c + a) + sent;
      b + (c1 + sent);
      (b + got) + c2;
    }
  }

  lemma {:induction false} RunKeeps(s: Mb, es: seq<Event>, flag: Flag, prio: Priorities)
    requires Inv(s) && Runs(s, es, flag, prio)
    decreases es
    ensures var (s', sent, got) := Outcome(s, es, flag, prio); Inv(s') && Contents(s) + sent == got + Contents(s')
  {
    hide Step, PlacesOk, Woken, Contents, Enabled, RingOk;
    if es == [] {
      assert Contents(s) + [] == [] + Contents(s);
    } else {
      StepKeeps(s, es[0], flag, prio);
      var (s1, r) := Step(s, es[0], flag, prio);
      RunKeeps(s1, es[1..], flag, prio);
      var (s', sent, got) := Outcome(s1, es[1..], flag, prio);
      var a, b := if r.Accepted? then [r.mail] else [], if r.Received? then [r.mail] else [];
      Regroup(Contents(s), a, b, Contents(s1), sent, got, Contents(s'));
    }
  }

  /**
   In every interleaving: a suspended receiver means that all mails present have an awake receiver each that
   will look for them, a suspended sender means the same of the free places, and the mails received are, in
   order, the first of those accepted; the others are in the ring.
   */
  lemma NoLostWakeup(s0: Mb, pool: seq<int>, es: seq<Event>, flag: Flag, prio: Priorities)
    requires s0 == Init(|pool|, pool) && Runs(s0, es, flag, prio)
    ensures var (s, sent, got) := Outcome(s0, es, flag, prio);
      && RingOk(s) && s.size == |pool|
      && (s.receivers != [] ==> s.entry <= |s.awakeReceivers|)
      && (s.senders != [] ==> s.size - s.entry <= |s.awakeSenders|)
      && sent == got + Contents(s)
  {
    InitInv(|pool|, pool);
    RunKeeps(s0, es, flag, prio);
    SizeKept(s0, es, flag, prio);
    var (s, sent, got) := Outcome(s0, es, flag, prio);
    assert Contents(s0) + sent == sent;
  }

  lemma StepSize(s: Mb, e: Event, flag: Flag, prio: Priorities)
    requires RingOk(s) && Enabled(s, e)
    ensures Step(s, e, flag, prio).0.size == s.size
  {
    hide Queued, Without;
  }

  lemma {:induction false} SizeKept(s: Mb, es: seq<Event>, flag: Flag, prio: Priorities)
    requires Inv(s) && Runs(s, es, flag, prio)
    decreases es
    ensures Outcome(s, es, flag, prio).0.size == s.size
  {
    hide PlacesOk, Woken, RingOk, Step, Enabled;
    if es != [] {
      StepKeeps(s, es[0], flag, prio);
      StepSize(s, es[0], flag, prio);
      SizeKept(Step(s, es[0], flag, prio).0, es[1..], flag, prio);
    }
  }

  /**
   With everybody's wake-up used up, suspended receivers face an empty mailbox, suspended senders a full one;
   never both.
   */
  lemma NeverStuck(s: Mb)
    requires Inv(s)
    ensures s.receivers != [] && s.awakeReceivers == {} ==> s.entry == 0
    ensures s.senders != [] && s.awakeSenders == {} ==> s.entry == s.size
    ensures s.receivers != [] && s.senders != [] && s.size > 0 ==> s.awakeReceivers != {} || s.awakeSenders != {}
  {
  }

  // ---------- the object of ipc.c ----------

  class MailboxObject {
    const size: nat
    const flag: Flag
    const pool: array<int>
    var inOffset: nat
    var outOffset: nat
    var entry: nat
    var receivers: seq<Tid>
    var senders: seq<Tid>
    var calls: map<Tid, Call>
    var awakeReceivers: set<Tid>
    var awakeSenders: set<Tid>
    var expired: set<Tid>

    ghost function State(): Mb
      reads this, pool
    {
      Mb(size, pool[..], inOffset, outOffset, entry, receivers, senders, calls, awakeReceivers, awakeSenders, expired)
    }

    /** rt_mb_init */
    constructor (pool: array<int>, flag: Flag)
      ensures Inv(State()) && State() == Init(pool.Length, pool[..]) && this.pool == pool && this.flag == flag
    {
      this.size, this.pool, this.flag := pool.Length, pool, flag;
      inOffset, outOffset, entry, receivers, senders := 0, 0, 0, [], [];
      calls, awakeReceivers, awakeSenders, expired := map[], {}, {}, {};
    }

    /** rt_mb_recv from its loop test on. */
    method ReceiveLoop(t: Tid, timeout: int, prio: Priorities) returns (r: Result)
      requires RingOk(State())
      modifies this
      ensures (State(), r) == Receive(old(State()), t, timeout, flag, prio)
    {
      if entry == 0 {
        if timeout == 0 {
          return Failed;
        }
        receivers := Suspend(receivers, t, flag, prio);
        calls := calls[t := Call(Receiver, 0, timeout)];
        return Blocked;
      }
      r := Received(pool[outOffset]);
      outOffset := outOffset + 1;
      if outOffset >= size {
        outOffset := 0;
      }
      entry := entry - 1;
      if senders != [] {
        awakeSenders := awakeSenders + {senders[0]};
        senders := senders[1..];
      }
    }

    /** rt_mb_send_wait from its loop test on. */
    method PostLoop(t: Tid, mail: int, timeout: int, prio: Priorities) returns (r: Result)
      requires RingOk(State())
      modifies this, pool
      ensures (State(), r) == Post(old(State()), t, mail, timeout, flag, prio)
    {
      if entry == size {
        if timeout == 0 {
          return Failed;
        }
        senders := Suspend(senders, t, flag, prio);
        calls := calls[t := Call(Sender, mail, timeout)];
        return Blocked;
      }
      pool[inOffset] := mail;
      inOffset := inOffset + 1;
      if inOffset >= size {
        inOffset := 0;
      }
      entry := entry + 1;
      if receivers != [] {
        awakeReceivers := awakeReceivers + {receivers[0]};
        receivers := receivers[1..];
      }
      r := Accepted(mail);
    }

    /** The first critical section of rt_mb_recv. */
    method RecvSection(t: Tid, timeout: int, prio: Priorities) returns (r: Result)
      requires Inv(State()) && t !in calls
      modifies this
      ensures (State(), r) == Step(old(State()), RecvEnter(t, timeout), flag, prio) && Inv(State())
    {
      hide PlacesOk, Woken, Receive, Post, Contents;
      StepKeeps(State(), RecvEnter(t, timeout), flag, prio);
      EmptyFails(State(), t, flag, prio);
      if entry == 0 && timeout == 0 {
        return Failed;
      }
      r := ReceiveLoop(t, timeout, prio);
    }

    /** The first critical section of rt_mb_send_wait. */
    method SendSection(t: Tid, mail: int, timeout: int, prio: Priorities) returns (r: Result)
      requires Inv(State()) && t !in calls
      modifies this, pool
      ensures (State(), r) == Step(old(State()), SendEnter(t, mail, timeout), flag, prio) && Inv(State())
    {
      hide PlacesOk, Woken, Receive, Post, Contents;
      StepKeeps(State(), SendEnter(t, mail, timeout), flag, prio);
      EmptyFails(State(), t, flag, prio);
      if entry == size && timeout == 0 {
        return Failed;
      }
      r := PostLoop(t, mail, timeout, prio);
    }

    /**
     After rt_schedule returned to a receiver: an error ends the call, otherwise the rest of the waiting time
     counts.
     */
    method RecvResumed(t: Tid, elapsed: nat, prio: Priorities) returns (r: Result)
      requires Inv(State()) && (t in awakeReceivers || (t in expired && calls[t].side == Receiver))
      modifies this
      ensures Inv(State())
      ensures (State(), r) == Step(old(State()),
          if t in old(expired) then GiveUp(t) else RecvAgain(t, elapsed), flag, prio)
    {
      hide Woken, Receive, Post, Contents;
      StepKeeps(State(), if t in expired then GiveUp(t) else RecvAgain(t, elapsed), flag, prio);
      LeaveWoken(State(), t);
      var error := t in expired;
      var timeout := calls[t].timeout;
      Depart(t);
      if error {
        return Failed;
      }
      if timeout > 0 {
        timeout := timeout - elapsed;
        if timeout < 0 {
          timeout := 0;
        }
      }
      r := ReceiveLoop(t, timeout, prio);
    }

    method SendResumed(t: Tid, elapsed: nat, prio: Priorities) returns (r: Result)
      requires Inv(State()) && (t in awakeSenders || (t in expired && calls[t].side == Sender))
      modifies this, pool
      ensures Inv(State())
      ensures (State(), r) == Step(old(State()),
          if t in old(expired) then GiveUp(t) else SendAgain(t, elapsed), flag, prio)
    {
      hide Woken, Receive, Post, Contents;
      StepKeeps(State(), if t in expired then GiveUp(t) else SendAgain(t, elapsed), flag, prio);
      LeaveWoken(State(), t);
      var error := t in expired;
      var timeout, mail := calls[t].timeout, calls[t].mail;
      Depart(t);
      if error {
        return Failed;
      }
      if timeout > 0 {
        timeout := timeout - elapsed;
        if timeout < 0 {
          timeout := 0;
        }
      }
      r := PostLoop(t, mail, timeout, prio);
    }

    /** The thread runs again: what it waited with is back on its stack. */
    method Depart(t: Tid)
      modifies this
      ensures State() == Leave(old(State()), t)
    {
      calls := calls - {t};
      awakeReceivers, awakeSenders, expired := awakeReceivers - {t}, awakeSenders - {t}, expired - {t};
    }

    /** rt_thread_timeout */
    method ThreadTimeout(t: Tid, prio: Priorities)
      requires Inv(State()) && Enabled(State(), Timeout(t))
      modifies this
      ensures State() == Step(old(State()), Timeout(t), flag, prio).0 && Inv(State())
    {
      hide Woken, Contents, PlacesOk;
      StepKeeps(State(), Timeout(t), flag, prio);
      expired := expired + {t};
      receivers, senders := Without(receivers, t), Without(senders, t);
    }
  }

  lemma EmptyFails(s: Mb, t: Tid, flag: Flag, prio: Priorities)
    requires RingOk(s)
    ensures s.entry == 0 ==> Receive(s, t, 0, flag, prio) == (s, Failed)
    ensures s.entry == s.size ==> forall mail :: Post(s, t, mail, 0, flag, prio) == (s, Failed)
  {
  }
}

/**
 What a caller of the mailbox sees: when a call returns at once, when it waits and for how long, who is woken,
 and that a mail gets from one thread to another.
 */
module MailboxLaws {
  import opened Lists
  import opened WaitList
  import opened Mailbox

  /** The waiting time left after `elapsed` ticks: none is negative, and forever stays forever. */
  predicate Remaining(timeout: int, elapsed: nat, left: int) {
    if timeout <= 0 then left == timeout
    else if elapsed < timeout then left == timeout - elapsed
    else left == 0
  }

  /** Nobody but t, and whoever was woken, notices. */
  ghost predicate OthersKept(s: Mb, s': Mb, t: Tid) {
    && (forall u :: u != t ==> (u in s'.calls <==> u in s.calls))
    && (forall u :: u != t && u in s.calls && u in s'.calls ==> s'.calls[u] == s.calls[u])
    && s'.expired == s.expired - {t} && s'.size == s.size
  }

  /**
   A thread wants a mail and would wait for `timeout`. It gets the oldest mail if there is one; otherwise it fails
   exactly if it would not wait, and is queued with its timeout if it would.
   */
  ghost predicate WantsMail(s: Mb, t: Tid, timeout: int, flag: Flag, s': Mb, r: Result)
    requires RingOk(s) && RingOk(s')
  {
    && (r.Received? <==> s.entry > 0)
    && (r == Failed <==> s.entry == 0 && timeout == 0)
    && (r == Blocked <==> s.entry == 0 && timeout != 0)
    && (r.Received? ==> Contents(s) == [r.mail] + Contents(s') && t !in s'.calls && s'.receivers == s.receivers)
    && (r == Failed ==> Contents(s) == Contents(s') && t !in s'.calls && s'.receivers == s.receivers)
    && (r == Blocked ==>
      && Contents(s') == Contents(s)
      && t in s'.receivers && Without(s'.receivers, t) == s.receivers
      && (flag == FIFO ==> s'.receivers == s.receivers + [t])
      && t in s'.calls && s'.calls[t] == Call(Receiver, 0, timeout))
    // a place has become free: the first sender that waits for one is woken
    && (if r.Received? && s.senders != [] then
          s.senders == [s.senders[0]] + s'.senders && s'.awakeSenders == (s.awakeSenders - {t}) + {s.senders[0]}
        else s'.senders == s.senders && s'.awakeSenders == s.awakeSenders - {t})
    && s'.awakeReceivers == s.awakeReceivers - {t}
  }

  /** The same for a thread that wants to send one. */
  ghost predicate WantsPlace(s: Mb, t: Tid, mail: int, timeout: int, flag: Flag, s': Mb, r: Result)
    requires RingOk(s) && RingOk(s')
  {
    && (r.Accepted? <==> s.entry < s.size)
    && (r == Failed <==> s.entry == s.size && timeout == 0)
    && (r == Blocked <==> s.entry == s.size && timeout != 0)
    && (r.Accepted? ==>
      r.mail == mail && Contents(s') == Contents(s) + [mail] && t !in s'.calls && s'.senders == s.senders)
    && (r == Failed ==> Contents(s') == Contents(s) && t !in s'.calls && s'.senders == s.senders)
    && (r == Blocked ==>
      && Contents(s') == Contents(s)
      && t in s'.senders && Without(s'.senders, t) == s.senders
      && (flag == FIFO ==> s'.senders == s.senders + [t])
      && t in s'.calls && s'.calls[t] == Call(Sender, mail, timeout))
    // a mail has come: the first receiver that waits for one is woken
    && (if r.Accepted? && s.receivers != [] then
          s.receivers == [s.receivers[0]] + s'.receivers
          && s'.awakeReceivers == (s.awakeReceivers - {t}) + {s.receivers[0]}
        else s'.receivers == s.receivers && s'.awakeReceivers == s.awakeReceivers - {t})
    && s'.awakeSenders == s.awakeSenders - {t}
  }

  /** No call of t is under way. */
  ghost predicate Idle(s: Mb, t: Tid) {
    && t !in s.calls && t !in s.receivers && t !in s.senders
    && t !in s.awakeReceivers && t !in s.awakeSenders && t !in s.expired
  }

  lemma NotCalling(s: Mb, t: Tid)
    requires PlacesOk(s) && t !in s.calls
    ensures Idle(s, t)
  {
  }

  lemma ReceiveWants(s: Mb, t: Tid, timeout: int, flag: Flag, prio: Priorities)
    requires RingOk(s) && Idle(s, t)
    ensures var (s', r) := Receive(s, t, timeout, flag, prio);
            RingOk(s') && WantsMail(s, t, timeout, flag, s', r) && OthersKept(s, s', t)
  {
    hide Contents, Queued, Slot;
    ReceiveConserves(s, t, timeout, flag, prio);
    QueuedMembers(s.receivers, t, flag, prio);
    QueuedAround(s.receivers, t, flag, prio);
    QueuedLast(s.receivers, t, prio);
    var (s', r) := Receive(s, t, timeout, flag, prio);
    assert Contents(s) + [] == Contents(s) && [] + Contents(s') == Contents(s');
  }

  lemma PostWants(s: Mb, t: Tid, mail: int, timeout: int, flag: Flag, prio: Priorities)
    requires RingOk(s) && Idle(s, t)
    ensures var (s', r) := Post(s, t, mail, timeout, flag, prio);
            RingOk(s') && WantsPlace(s, t, mail, timeout, flag, s', r) && OthersKept(s, s', t)
  {
    hide Contents, Queued, Slot;
    PostConserves(s, t, mail, timeout, flag, prio);
    QueuedMembers(s.senders, t, flag, prio);
    QueuedAround(s.senders, t, flag, prio);
    QueuedLast(s.senders, t, prio);
    var (s', r) := Post(s, t, mail, timeout, flag, prio);
    assert Contents(s) + [] == Contents(s) && [] + Contents(s') == Contents(s');
  }

  /** What holds from the moment t runs again holds from the moment before. */
  lemma LeaveWants(s: Mb, t: Tid, mail: int, left: int, flag: Flag, s': Mb, r: Result)
    requires RingOk(s) && RingOk(s') && PlacesOk(s) && (t in s.awakeReceivers || t in s.awakeSenders)
    ensures Idle(Leave(s, t), t) && RingOk(Leave(s, t))
    ensures OthersKept(Leave(s, t), s', t) ==> OthersKept(s, s', t)
    ensures WantsMail(Leave(s, t), t, left, flag, s', r) ==> WantsMail(s, t, left, flag, s', r)
    ensures WantsPlace(Leave(s, t), t, mail, left, flag, s', r) ==> WantsPlace(s, t, mail, left, flag, s', r)
  {
    SameRing(s, Leave(s, t));
    hide Contents, RingOk;
    assert s.awakeReceivers - {t} - {t} == s.awakeReceivers - {t};
    assert s.awakeSenders - {t} - {t} == s.awakeSenders - {t};
  }

  /** rt_mb_recv, first time round. */
  lemma RecvEnters(s: Mb, t: Tid, timeout: int, flag: Flag, prio: Priorities)
    requires Inv(s) && Enabled(s, RecvEnter(t, timeout))
    ensures var (s', r) := Step(s, RecvEnter(t, timeout), flag, prio);
            RingOk(s') && WantsMail(s, t, timeout, flag, s', r) && OthersKept(s, s', t)
  {
    hide Receive, Contents, WantsMail, OthersKept;
    NotCalling(s, t);
    ReceiveWants(s, t, timeout, flag, prio);
  }

  /** rt_mb_recv after a wake-up: as at first, with the time that is left. */
  lemma RecvGoesOn(s: Mb, t: Tid, elapsed: nat, flag: Flag, prio: Priorities) returns (left: int)
    requires Inv(s) && Enabled(s, RecvAgain(t, elapsed))
    ensures Remaining(s.calls[t].timeout, elapsed, left)
    ensures var (s', r) := Step(s, RecvAgain(t, elapsed), flag, prio);
            RingOk(s') && WantsMail(s, t, left, flag, s', r) && OthersKept(s, s', t)
  {
    hide Receive, Contents, WantsMail, OthersKept, Leave, Idle;
    left := Left(s.calls[t].timeout, elapsed);
    LeaveWants(s, t, 0, left, flag, s, NoResult);
    ReceiveWants(Leave(s, t), t, left, flag, prio);
    var (s', r) := Step(s, RecvAgain(t, elapsed), flag, prio);
    LeaveWants(s, t, 0, left, flag, s', r);
  }

  /** rt_mb_send_wait, first time round. */
  lemma SendEnters(s: Mb, t: Tid, mail: int, timeout: int, flag: Flag, prio: Priorities)
    requires Inv(s) && Enabled(s, SendEnter(t, mail, timeout))
    ensures var (s', r) := Step(s, SendEnter(t, mail, timeout), flag, prio);
            RingOk(s') && WantsPlace(s, t, mail, timeout, flag, s', r) && OthersKept(s, s', t)
  {
    hide Post, Contents, WantsPlace, OthersKept;
    NotCalling(s, t);
    PostWants(s, t, mail, timeout, flag, prio);
  }

  /** rt_mb_send_wait after a wake-up: the mail it came with, the time that is left. */
  lemma SendGoesOn(s: Mb, t: Tid, elapsed: nat, flag: Flag, prio: Priorities) returns (left: int)
    requires Inv(s) && Enabled(s, SendAgain(t, elapsed))
    ensures Remaining(s.calls[t].timeout, elapsed, left)
    ensures var (s', r) := Step(s, SendAgain(t, elapsed), flag, prio);
            RingOk(s') && WantsPlace(s, t, s.calls[t].mail, left, flag, s', r) && OthersKept(s, s', t)
  {
    hide Post, Contents, WantsPlace, OthersKept, Leave, Idle;
    var mail := s.calls[t].mail;
    left := Left(s.calls[t].timeout, elapsed);
    LeaveWants(s, t, mail, left, flag, s, NoResult);
    PostWants(Leave(s, t), t, mail, left, flag, prio);
    var (s', r) := Step(s, SendAgain(t, elapsed), flag, prio);
    LeaveWants(s, t, mail, left, flag, s', r);
  }

  /** A timeout ends the call of that thread without a mail, and touches nothing else. */
  lemma TimesOut(s: Mb, t: Tid, flag: Flag, prio: Priorities)
    requires Inv(s) && Enabled(s, Timeout(t))
    ensures var s1 := Step(s, Timeout(t), flag, prio).0;
            && Inv(s1) && t !in s1.receivers && t !in s1.senders && Enabled(s1, GiveUp(t))
            && var (s2, r) := Step(s1, GiveUp(t), flag, prio);
            && r == Failed && RingOk(s2) && Contents(s2) == Contents(s) && t !in s2.calls && OthersKept(s, s2, t)
            && forall u :: u != t ==> (u in s2.receivers <==> u in s.receivers) && (u in s2.senders <==> u in s.senders)
  {
    hide Contents;
    StepKeeps(s, Timeout(t), flag, prio);
    var s1 := Step(s, Timeout(t), flag, prio).0;
    StepKeeps(s1, GiveUp(t), flag, prio);
    WithoutMembers(s.receivers, t);
    WithoutMembers(s.senders, t);
    hide Without;
    var s2 := Step(s1, GiveUp(t), flag, prio).0;
    SameRing(s, s2);
  }

  // ---------- a mail gets through ----------

  /**
   A receiver that waits at an empty mailbox for any time, even forever, is woken by the next send and gets that
   mail.
   */
  lemma HandOver(s: Mb, t: Tid, wait: int, u: Tid, mail: int, limit: int, elapsed: nat, flag: Flag, prio: Priorities)
    requires Inv(s) && s.entry == 0 < s.size && s.receivers == []
    requires t !in s.calls && u !in s.calls && t != u && wait != 0
    ensures var (s1, r1) := Step(s, RecvEnter(t, wait), flag, prio);
            && r1 == Blocked && Inv(s1) && Enabled(s1, SendEnter(u, mail, limit))
            && var (s2, r2) := Step(s1, SendEnter(u, mail, limit), flag, prio);
            && r2 == Accepted(mail) && Inv(s2) && Enabled(s2, RecvAgain(t, elapsed))
            && Step(s2, RecvAgain(t, elapsed), flag, prio).1 == Received(mail)
  {
    hide Contents, Step, RingOk, PlacesOk, Woken;
    StepKeeps(s, RecvEnter(t, wait), flag, prio);
    RecvEnters(s, t, wait, flag, prio);
    var s1 := Step(s, RecvEnter(t, wait), flag, prio).0;
    NoMails(s);
    NoMails(s1);
    assert s1.receivers == [t];
    SendEnters(s1, u, mail, limit, flag, prio);
    StepKeeps(s1, SendEnter(u, mail, limit), flag, prio);
    var (s2, r2) := Step(s1, SendEnter(u, mail, limit), flag, prio);
    assert r2 == Accepted(mail);
    NoMails(s2);
    StaysCalled(s2, t);
    var _ := RecvGoesOn(s2, t, elapsed, flag, prio);
    var (s3, r) := Step(s2, RecvAgain(t, elapsed), flag, prio);
    assert Contents(s2) == [mail] && Contents(s2)[0] == r.mail;
  }

  /** A sender that waits at a full mailbox is woken by the next receive, and then its mail is the newest. */
  lemma MadeRoom(s: Mb, u: Tid, mail: int, wait: int, t: Tid, limit: int, elapsed: nat, flag: Flag, prio: Priorities)
    requires Inv(s) && s.entry == s.size > 0 && s.senders == []
    requires t !in s.calls && u !in s.calls && t != u && wait != 0
    ensures var (s1, r1) := Step(s, SendEnter(u, mail, wait), flag, prio);
            && r1 == Blocked && Inv(s1) && Enabled(s1, RecvEnter(t, limit))
            && var (s2, r2) := Step(s1, RecvEnter(t, limit), flag, prio);
            && r2 == Received(Contents(s)[0]) && Inv(s2) && Enabled(s2, SendAgain(u, elapsed))
            && var (s3, r3) := Step(s2, SendAgain(u, elapsed), flag, prio);
            && r3 == Accepted(mail) && RingOk(s3) && Contents(s3) == Contents(s)[1..] + [mail]
  {
    hide Contents, Step, RingOk, PlacesOk, Woken, Queued;
    StepKeeps(s, SendEnter(u, mail, wait), flag, prio);
    SendEnters(s, u, mail, wait, flag, prio);
    var s1 := Step(s, SendEnter(u, mail, wait), flag, prio).0;
    NoMails(s);
    NoMails(s1);
    assert s1.senders == [u];
    FirstGoes(s1, u, t, limit, flag, prio);
    var s2 := Step(s1, RecvEnter(t, limit), flag, prio).0;
    NoMails(s2);
    var _ := SendGoesOn(s2, u, elapsed, flag, prio);
  }

  /** The oldest mail goes to t, and u, which waits for its place alone, is woken. */
  lemma FirstGoes(s: Mb, u: Tid, t: Tid, limit: int, flag: Flag, prio: Priorities)
    requires Inv(s) && s.entry > 0 && s.senders == [u] && u in s.calls && t !in s.calls && t != u
    ensures var (s', r) := Step(s, RecvEnter(t, limit), flag, prio);
            && Inv(s') && Enabled(s', SendAgain(u, 0)) && s'.calls[u] == s.calls[u]
            && |Contents(s)| == s.entry && r == Received(Contents(s)[0]) && Contents(s') == Contents(s)[1..]
            && s'.size == s.size
  {
    hide Contents, Step, RingOk, PlacesOk, Woken, Queued;
    StepKeeps(s, RecvEnter(t, limit), flag, prio);
    RecvEnters(s, t, limit, flag, prio);
    var (s', r) := Step(s, RecvEnter(t, limit), flag, prio);
    NoMails(s);
    assert Contents(s)[0] == r.mail && Contents(s)[1..] == Contents(s');
    StaysCalled(s', u);
  }

  lemma StaysCalled(s: Mb, u: Tid)
    requires Inv(s) && (u in s.awakeReceivers || u in s.awakeSenders)
    ensures u in s.calls
  {
  }

  lemma NoMails(s: Mb)
    requires RingOk(s)
    ensures |Contents(s)| == s.entry
  {
  }
}

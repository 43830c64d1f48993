/** What holds in every state that any schedule of any number of harts can reach. */
module HartProtocol {
  import opened HartModel
  import opened HartInvariant
  import opened HartFrame
  import opened HartSteps
  import opened HartHandler

  lemma StepKeeps(s: State, h: nat, c: Choice)
    requires Inv(s) && h < |s.harts|
    ensures Inv(Step(s, h, c))
  {
    hide Inv, StepBase, StepIrq;
    if !s.harts[h].irq.Off? {
      StepIrqKeeps(s, h);
    } else if c == Interrupt && s.harts[h].msip && !s.harts[h].base.Switching? {
      InterruptKeeps(s, h);
    } else {
      StepBaseKeeps(s, h, c);
    }
  }

  lemma {:induction false} ExecKeeps(s: State, schedule: seq<Turn>)
    requires Inv(s)
    ensures Inv(Exec(s, schedule))
    decreases |schedule|
  {
    hide Inv, Step;
    if schedule != [] {
      var p, turn := Exec(s, schedule[..|schedule| - 1]), schedule[|schedule| - 1];
      ExecKeeps(s, schedule[..|schedule| - 1]);
      if turn.hart < |p.harts| {
        StepKeeps(p, turn.hart, turn.choice);
      }
    }
  }

  /** The states that n harts can reach. */
  function Reached(n: nat, first: nat, schedule: seq<Turn>): (s: State)
    ensures |s.harts| == n && s.first == first
  {
    Exec(Boot(n, first), schedule)
  }

  lemma ReachedInv(n: nat, first: nat, schedule: seq<Turn>)
    ensures Inv(Reached(n, first, schedule))
  {
    BootInv(n, first);
    ExecKeeps(Boot(n, first), schedule);
  }

  // --- hart state management -----------------------------------------------------------------------

  /** A STARTHART sits in the mailbox and its handler has not written STARTED yet. */
  predicate StartInMailbox(x: Hart) {
    x.msip && x.slot[0] == STARTHART && !AfterStarted(x.irq)
  }

  lemma MailedIsInSlot(h: nat, x: Hart)
    requires MailOk(x) && StateOk(h, x)
    ensures Mailed(x) <==> StartInMailbox(x)
  {
  }

  /** A hart is START_PENDING exactly while one STARTHART for it is in flight: with one winner that
      has not signalled it, or else in the mailbox. */
  lemma StartPendingIsInFlight(n: nat, first: nat, schedule: seq<Turn>, t: nat)
    requires t < n
    ensures var s := Reached(n, first, schedule);
            && (s.harts[t].hsm == START_PENDING <==>
                  StartInMailbox(s.harts[t]) || exists g | 0 <= g < n :: Starting(s.harts[g].base, t))
            && (forall g | 0 <= g < n && Starting(s.harts[g].base, t) :: !StartInMailbox(s.harts[t]))
            && (forall g, k | 0 <= g < n && 0 <= k < n && Starting(s.harts[g].base, t) && Starting(s.harts[k].base, t)
                  :: g == k)
  {
    var s := Reached(n, first, schedule);
    ReachedInv(n, first, schedule);
    assert Local(s, t) && BackLinkOk(s, t);
    MailedIsInSlot(t, s.harts[t]);
    forall g | 0 <= g < n && Starting(s.harts[g].base, t) ensures s.harts[t].token == WithSender(g) {
      assert Linked(s, g);
      StartingTarget(s.harts[g].base, t);
    }
  }

  /** Racing starters: one claim is granted each time a hart comes to rest, it is started once for
      every claim, and with the address and argument of the starter that was granted it. */
  lemma OneStartPerRest(n: nat, first: nat, schedule: seq<Turn>, t: nat)
    requires t < n
    ensures var x := Reached(n, first, schedule).harts[t];
            && |x.wins| == x.parks - (if x.hsm == STOPPED || x.hsm == SUSPENDED then 1 else 0)
            && |x.wins| - 1 <= |x.launches| <= |x.wins|
            && (x.hsm == STARTED && !AfterStarted(x.irq) ==> |x.launches| == |x.wins| == x.parks)
            && (forall i | 0 <= i < |x.launches| :: x.launches[i] == Entry(x.wins[i].addr, t, x.wins[i].arg))
  {
    ReachedInv(n, first, schedule);
    assert Local(Reached(n, first, schedule), t);
  }

  /** The points of sbi_hart_start after its claim was granted, and after it was refused. */
  predicate Granted(b: Base) {
    b.Claimed? || (b.Acquire? && b.goal.ToSend? && b.goal.msg.starts)
    || ((b.Poll? || b.Copying? || b.Kick? || b.Release?) && b.msg.starts)
  }

  predicate Refused(b: Base) {
    b.Losing? || (b.Printing? && b.after.ThenLose?) || (b.Acquire? && b.goal.ToPrint? && b.goal.after.ThenLose?)
  }

  /** A granted call returns success and a refused one does not; which of the two it is, is decided
      by the state word alone. */
  lemma StartReturns(s: State, h: nat, c: Choice)
    requires Inv(s) && h < |s.harts| && s.harts[h].irq.Off?
    ensures var b, b' := s.harts[h].base, StepBase(s, h, c).harts[h].base;
            && (Granted(b) ==> Granted(b') || b' == Kernel(0, 0))
            && (Refused(b) ==> Refused(b') || b' == Kernel(-6, 0))
            && (b.Acquire? && b.goal.ToStart? ==>
                  (b'.Acquire? && b'.goal == b.goal) || b' == Reading(b.goal.target, b.goal.addr, b.goal.arg))
            && (b.Reading? ==>
                  && b.target < |s.harts|
                  && var st := s.harts[b.target].hsm;
                     if st == STARTED || st == START_PENDING || st == RESUME_PENDING then Refused(b')
                     else b' == Claiming(b.target, b.addr, b.arg))
            && (b.Claiming? ==>
                  && Granted(b')
                  && var t, t' := s.harts[b.target], StepBase(s, h, c).harts[b.target];
                     t'.hsm == START_PENDING && t'.wins == t.wins + [Win(h, b.addr, b.arg)])
  {
    hide LocksOk, MailOk, StateOk, HistoryOk, BackLinkOk, LinkOk;
    assert Local(s, h) && Linked(s, h);
    if s.harts[h].base.Acquire? {
      StartWaits(s, h);
    }
  }

  lemma StartWaits(s: State, h: nat)
    requires h < |s.harts| && s.harts[h].base.Acquire?
    ensures var b, b' := s.harts[h].base, StepAcquire(s, h).harts[h].base;
            (Granted(b) ==> Granted(b')) && (Refused(b) ==> Refused(b'))
  {
  }

  // --- locks ------------------------------------------------------------------------------------------

  datatype Waiting = Nothing | SpinsOn(lock: Lock)

  /** The lock a hart is spinning on at the point where it is now. */
  function Spinning(h: nat, x: Hart): Waiting {
    if x.irq.StartPrint? then SpinsOn(PrintLock)
    else if x.irq.StartWait? then SpinsOn(HsmLock(h))
    else if x.irq.Off? && x.base.Acquire? then SpinsOn(GoalLock(h, x.base.goal))
    else Nothing
  }

  /** A lock word is 1 exactly while one hart holds the lock. */
  lemma MutualExclusion(n: nat, first: nat, schedule: seq<Turn>, l: Lock)
    ensures var s := Reached(n, first, schedule);
            && (l in s.taken <==> exists h | 0 <= h < n :: l in Holds(h, s.harts[h]))
            && (forall g, h | 0 <= g < n && 0 <= h < n && l in Holds(g, s.harts[g]) && l in Holds(h, s.harts[h])
                  :: g == h)
  {
    hide Holds;
    var s := Reached(n, first, schedule);
    ReachedInv(n, first, schedule);
    forall g | 0 <= g < n ensures l in Holds(g, s.harts[g]) <==> l in s.owner && s.owner[l] == g {
      assert HoldsOk(s, g);
    }
    if l in s.taken {
      assert l in Holds(s.owner[l], s.harts[s.owner[l]]);
    }
  }

  /** The STARTHART handler runs only over code that holds no lock at all. */
  lemma HandlerOverNoLock(n: nat, first: nat, schedule: seq<Turn>, h: nat)
    requires h < n
    ensures var x := Reached(n, first, schedule).harts[h];
            BeforeStarted(x.irq) || AfterStarted(x.irq) ==> BaseHolds(h, x.base) == {}
  {
    ReachedInv(n, first, schedule);
    assert Local(Reached(n, first, schedule), h);
  }

  /** No hart ever spins on a lock it already holds, with or without an interrupt in between. */
  lemma NoSelfDeadlock(n: nat, first: nat, schedule: seq<Turn>, h: nat)
    requires h < n
    ensures var x := Reached(n, first, schedule).harts[h];
            Spinning(h, x).SpinsOn? ==> Spinning(h, x).lock !in Holds(h, x)
  {
    ReachedInv(n, first, schedule);
    assert Local(Reached(n, first, schedule), h);
  }

  /** Nor do harts wait for each other in a circle: behind a lock there is at most one more wait. */
  lemma ShortWaits(n: nat, first: nat, schedule: seq<Turn>, g: nat, h: nat, k: nat)
    requires g < n && h < n && k < n
    ensures var s := Reached(n, first, schedule);
            Spinning(g, s.harts[g]).SpinsOn? && Spinning(g, s.harts[g]).lock in Holds(h, s.harts[h])
            && Spinning(h, s.harts[h]).SpinsOn? && Spinning(h, s.harts[h]).lock in Holds(k, s.harts[k])
            ==> Spinning(k, s.harts[k]) == Nothing
  {
    var s := Reached(n, first, schedule);
    ReachedInv(n, first, schedule);
    assert Local(s, h) && Local(s, k);
  }

  // --- mailboxes ------------------------------------------------------------------------------------------

  /** What a target handles is, command for command and word for word, what senders ordered by taking
      its lock; what is ordered and not handled is in the mailbox or with the hart that has the lock. */
  lemma HandledInOrder(n: nat, first: nat, schedule: seq<Turn>, t: nat)
    requires t < n
    ensures var s := Reached(n, first, schedule);
            var x := s.harts[t];
            && |x.handled| <= |x.order| <= |x.handled| + 2
            && (forall i | 0 <= i < |x.handled| :: x.handled[i] == x.order[i].cmd)
            && (x.msip ==> |x.handled| < |x.order|)
            && (x.msip ==> x.slot == x.order[|x.handled|].cmd
                           || (x.irq.ClearMsip? && x.irq.cmd == x.order[|x.handled|].cmd))
            && (|x.order| - |x.handled| - (if x.msip then 1 else 0) == 1 ==>
                  exists g | 0 <= g < n :: Unposted(s.harts[g].base) && s.harts[g].base.msg.target == t
                                          && x.order[|x.order| - 1] == Sent(g, s.harts[g].base.msg.cmd))
  {
    hide LocksOk, PcOk, MailOk, StateOk, HistoryOk, BackLinkOk, LinkOk, Reached;
    var s := Reached(n, first, schedule);
    ReachedInv(n, first, schedule);
    assert Local(s, t);
    MailInOrder(s.harts[t]);
    if Ahead(s.harts[t]) == 1 {
      PendingAtOwner(s, t);
    }
  }

  lemma MailInOrder(x: Hart)
    requires MailOk(x)
    ensures |x.handled| <= |x.order| <= |x.handled| + 2 && (x.msip ==> |x.handled| < |x.order|)
    ensures forall i | 0 <= i < |x.handled| :: x.handled[i] == x.order[i].cmd
    ensures x.msip ==> x.slot == x.order[|x.handled|].cmd
                       || (x.irq.ClearMsip? && x.irq.cmd == x.order[|x.handled|].cmd)
  {
  }

  /** A command that is ordered and not in the mailbox is with the hart that has the lock. */
  lemma PendingAtOwner(s: State, t: nat)
    requires Inv(s) && t < |s.harts| && Ahead(s.harts[t]) == 1
    ensures exists g | 0 <= g < |s.harts| ::
              Unposted(s.harts[g].base) && s.harts[g].base.msg.target == t && |s.harts[t].order| > 0
              && s.harts[t].order[|s.harts[t].order| - 1] == Sent(g, s.harts[g].base.msg.cmd)
  {
    hide LocksOk, Local;
    assert BackLinkOk(s, t);
    var g := s.owner[QueLock(t)];
    assert Linked(s, g);
  }

  /** The handler's copy is never a mixture of two commands, and it knows every command it reads. */
  lemma CopyIsWhole(n: nat, first: nat, schedule: seq<Turn>, t: nat)
    requires t < n
    ensures var x := Reached(n, first, schedule).harts[t];
            && !x.irq.Unhandled?
            && (!x.irq.Off? ==> x.msip && |x.handled| < |x.order|)
            && (x.irq.Fetch? ==> x.irq.copy <= x.order[|x.handled|].cmd)
            && (!x.irq.Off? && !x.irq.Fetch? ==> x.irq.cmd == x.order[|x.handled|].cmd)
  {
    ReachedInv(n, first, schedule);
    assert Local(Reached(n, first, schedule), t);
  }

  /** When blk or ret is about to return, its own command is the last one handled; ret has read back
      its own parameters under a command word of 0. */
  lemma BlockingSendIsHandled(n: nat, first: nat, schedule: seq<Turn>, h: nat)
    requires h < n
    ensures var s := Reached(n, first, schedule);
            var b := s.harts[h].base;
            b.Release? && b.msg.kind != Que ==>
              b.msg.target < n
              && var x := s.harts[b.msg.target];
              && |x.handled| == |x.order| > 0
              && x.order[|x.order| - 1] == Sent(h, b.msg.cmd) && x.handled[|x.handled| - 1] == b.msg.cmd
              && (b.msg.kind == Ret ==> |b.back| == 7 && b.back[0] == 0 && b.back[1..] == b.msg.cmd[1..])
  {
    var s := Reached(n, first, schedule);
    ReachedInv(n, first, schedule);
    assert Local(s, h) && Linked(s, h);
    var b := s.harts[h].base;
    if b.Release? && b.msg.kind != Que {
      assert Local(s, b.msg.target);
    }
  }

  predicate Grows(x: Hart, x': Hart) {
    x.order <= x'.order && x.handled <= x'.handled && x.wins <= x'.wins && x.launches <= x'.launches
  }

  lemma MailboxGrows(s: State, h: nat, m: Message, rest: seq<Message>, t: nat)
    requires h < |s.harts| && t < |s.harts| && m.target < |s.harts|
    ensures Grows(s.harts[t], MailboxTaken(s, h, m, rest).harts[t])
  {
    hide DiaryOf;
  }

  lemma SenderGrows(s: State, h: nat, t: nat)
    requires h < |s.harts| && t < |s.harts| && Sending(s.harts[h].base) && s.harts[h].base.msg.target < |s.harts|
    ensures s.harts[h].base.Copying? ==> Grows(s.harts[t], StepCopy(s, h).harts[t])
    ensures s.harts[h].base.Kick? ==> Grows(s.harts[t], StepKick(s, h).harts[t])
    ensures s.harts[h].base.ReadBack? ==> Grows(s.harts[t], StepReadBack(s, h).harts[t])
  {
  }

  lemma HsmGrows(s: State, h: nat, t: nat)
    requires h < |s.harts| && t < |s.harts|
    ensures var b := s.harts[h].base;
            && (b.Claiming? && b.target < |s.harts| ==> Grows(s.harts[t], StepClaim(s, h).harts[t]))
            && (b.ParkWrite? ==> Grows(s.harts[t], StepParkWrite(s, h).harts[t]))
  {
  }

  lemma BaseGrows(s: State, h: nat, c: Choice, t: nat)
    requires h < |s.harts| && t < |s.harts|
    ensures Grows(s.harts[t], StepBase(s, h, c).harts[t])
  {
    hide StepBase, StepAcquire, StepCopy, StepKick, StepReadBack, StepClaim, StepParkWrite, Call, Noted, MailboxTaken;
    var b := s.harts[h].base;
    SenderStep(s, h, c);
    if PlainPoint(s, b) {
      PlainStep(s, h, c);
    } else if b.Kernel? {
      NotedHarts(s, h, c);
    } else if b.Acquire? {
      MailboxGrows(s, h, b.goal.msg, b.goal.rest, t);
    } else if b.Claiming? || b.ParkWrite? {
      HsmGrows(s, h, t);
    } else {
      SenderGrows(s, h, t);
    }
  }

  lemma NotedHarts(s: State, h: nat, c: Choice)
    ensures Noted(s, h, c).harts == s.harts
  {
    hide AllSendable;
  }

  lemma IrqGrows(s: State, h: nat, t: nat)
    requires h < |s.harts| && t < |s.harts| && !s.harts[h].irq.Off?
    ensures Grows(s.harts[t], StepIrq(s, h).harts[t])
  {
    hide StepIrq;
    HandlerStep(s, h);
  }

  /** Nothing that has been ordered, handled, granted or started is ever taken back. */
  lemma HistoryGrows(s: State, h: nat, c: Choice, t: nat)
    requires h < |s.harts| && t < |s.harts|
    ensures Grows(s.harts[t], Step(s, h, c).harts[t])
  {
    hide StepBase, StepIrq;
    BaseGrows(s, h, c, t);
    if !s.harts[h].irq.Off? {
      IrqGrows(s, h, t);
    }
  }
}

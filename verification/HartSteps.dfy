/** Every step of every hart keeps the invariant: the steps outside the handler. */
module HartSteps {
  import opened HartModel
  import opened HartInvariant
  import opened HartFrame

  predicate Running(s: State, h: nat) {
    h < |s.harts| && s.harts[h].irq.Off?
  }

  /** The steps that change more than the program counter of their own hart. */
  lemma SenderStep(s: State, h: nat, c: Choice)
    requires h < |s.harts|
    ensures var b := s.harts[h].base;
            && (b.Claiming? && b.target < |s.harts| ==> StepBase(s, h, c) == StepClaim(s, h))
            && (b.ParkWrite? ==> StepBase(s, h, c) == StepParkWrite(s, h))
            && (b.Copying? && b.msg.target < |s.harts| ==> StepBase(s, h, c) == StepCopy(s, h))
            && (b.Kick? && b.msg.target < |s.harts| ==> StepBase(s, h, c) == StepKick(s, h))
            && (b.ReadBack? && b.msg.target < |s.harts| ==> StepBase(s, h, c) == StepReadBack(s, h))
            && (b.Acquire? ==> StepBase(s, h, c) == StepAcquire(s, h))
            && (TakesMailbox(s, b) ==> StepBase(s, h, c) == MailboxTaken(s, h, b.goal.msg, b.goal.rest))
            && (b.Kernel? ==> StepBase(s, h, c) == SetBase(Noted(s, h, c), h, Call(s, h, c)))
  {
    hide StepClaim, StepParkWrite, StepCopy, StepKick, StepReadBack, Noted, Call, LogOrder;
  }

  /** Nothing but the program counter of hart h and locks. */
  predicate Plain(s: State, s': State, h: nat)
    requires h < |s.harts|
  {
    && |s'.harts| == |s.harts| && s'.harts == s.harts[h := s.harts[h].(base := s'.harts[h].base)]
    && s'.diary == s.diary && s'.first == s.first
  }

  /** The step at which the lock of a mailbox is taken. */
  predicate TakesMailbox(s: State, b: Base) {
    b.Acquire? && b.swap && b.goal.ToSend? && b.goal.msg.target < |s.harts| && QueLock(b.goal.msg.target) !in s.taken
  }

  /** The message gets its place in the order. */
  function MailboxTaken(s: State, h: nat, m: Message, rest: seq<Message>): State
    requires h < |s.harts| && m.target < |s.harts|
  {
    LogOrder(Take(SetBase(s, h, Poll(m, rest)), h, QueLock(m.target)), h, m)
  }

  predicate PlainPoint(s: State, b: Base) {
    !b.Kernel? && !TakesMailbox(s, b) && !b.ParkWrite? && (b.Claiming? ==> b.target >= |s.harts|)
    && (b.Copying? || b.Kick? || b.ReadBack? ==> b.msg.target >= |s.harts|)
  }

  lemma PlainStep(s: State, h: nat, c: Choice)
    requires h < |s.harts| && PlainPoint(s, s.harts[h].base)
    ensures Plain(s, StepBase(s, h, c), h)
  {
    hide Plain, AfterPrint, Busy, SendAll, StartCommand, StateNumber, SetBase, Entered;
    NothingMoves(s, h);
    forall b, l ensures Plain(s, Take(SetBase(s, h, b), h, l), h) {
      OneBaseTake(s, h, b, l);
    }
    forall b ensures Plain(s, SetBase(s, h, b), h) {
      OneBase(s, h, b);
    }
    forall b, l ensures Plain(s, SetBase(Post(s, l), h, b), h) {
      OneBasePost(s, h, b, l);
    }
  }

  lemma NothingMoves(s: State, h: nat)
    requires h < |s.harts|
    ensures Plain(s, s, h)
  {
    var x := s.harts[h];
    assert x.(base := x.base) == x && s.harts[h := x] == s.harts;
  }

  lemma OneBase(s: State, h: nat, b: Base)
    requires h < |s.harts|
    ensures Plain(s, SetBase(s, h, b), h)
  {
  }

  lemma OneBaseTake(s: State, h: nat, b: Base, l: Lock)
    requires h < |s.harts|
    ensures Plain(s, Take(SetBase(s, h, b), h, l), h)
  {
  }

  lemma OneBasePost(s: State, h: nat, b: Base, l: Lock)
    requires h < |s.harts|
    ensures |Post(s, l).harts| == |s.harts| && Plain(s, SetBase(Post(s, l), h, b), h)
  {
  }

  predicate Neutral(b: Base) {
    !Sending(b) && !Starting(b, Target(b)) && !b.Claiming?
  }

  lemma Idling(h: nat, b: Base, x: Hart)
    requires Neutral(b)
    ensures LinkOk(h, b, x)
  {
  }

  /** The next message of a broadcast, or the return to the kernel. */
  lemma NextMessage(s: State, h: nat, msgs: seq<Message>)
    requires h < |s.harts| && RestOk(s, h, msgs)
    ensures PcOk(s, h, SendAll(msgs)) && Neutral(SendAll(msgs)) && Target(SendAll(msgs)) < |s.harts|
  {
    if msgs != [] {
      assert forall m <- msgs[1..] :: m in msgs;
    }
  }

  /** The kernel of a hart calls into the firmware. */
  lemma CallKeeps(s: State, h: nat, c: Choice)
    requires Inv(s) && Running(s, h) && s.harts[h].base.Kernel?
    ensures Inv(StepBase(s, h, c))
  {
    hide LinkOk, MailOk, HistoryOk, StateOk;
    var s' := StepBase(s, h, c);
    var b' := Call(s, h, c);
    if c.CallSend? && AllSendable(s, h, c.msgs) {
      NextMessage(s, h, c.msgs);
    }
    LocksSame(s, s', h);
    Idling(h, b', s.harts[Target(b')]);
    BaseMoves(s, s', h, b');
  }

  /** ksem_wait, for every lock but that of a mailbox, while it goes on. */
  lemma OtherSpinKeeps(s: State, h: nat, c: Choice)
    requires Inv(s) && Running(s, h) && s.harts[h].base.Acquire? && !s.harts[h].base.goal.ToSend?
    requires var b := s.harts[h].base; !b.swap || GoalLock(h, b.goal) in s.taken
    ensures Inv(StepBase(s, h, c))
  {
    hide LinkOk, MailOk, HistoryOk, StateOk, GoalLock;
    var s', b := StepBase(s, h, c), s.harts[h].base;
    assert Local(s, h);
    if s' != s {
      Idling(h, s'.harts[h].base, s.harts[Target(s'.harts[h].base)]);
      LocksSame(s, s', h);
      BaseMoves(s, s', h, s'.harts[h].base);
    }
  }

  /** And as it ends. */
  lemma OtherTakenKeeps(s: State, h: nat, c: Choice)
    requires Inv(s) && Running(s, h) && s.harts[h].base.Acquire? && !s.harts[h].base.goal.ToSend?
    requires var b := s.harts[h].base; b.swap && GoalLock(h, b.goal) !in s.taken
    ensures Inv(StepBase(s, h, c))
  {
    hide LinkOk, MailOk, HistoryOk, StateOk;
    var s', b := StepBase(s, h, c), s.harts[h].base;
    var l, b' := GoalLock(h, b.goal), s'.harts[h].base;
    assert Local(s, h);
    Idling(h, b', s.harts[Target(b')]);
    LocksTaken(s, s', h, l);
    BaseMoves(s, s', h, b');
  }

  /** ksem_wait for a mailbox before the amoswap succeeds. */
  lemma QueueSpinKeeps(s: State, h: nat, c: Choice)
    requires Inv(s) && Running(s, h) && s.harts[h].base.Acquire? && s.harts[h].base.goal.ToSend?
    requires var b := s.harts[h].base; !b.swap || GoalLock(h, b.goal) in s.taken
    ensures Inv(StepBase(s, h, c))
  {
    hide MailOk, HistoryOk, StateOk;
    var s' := StepBase(s, h, c);
    assert Local(s, h) && Linked(s, h);
    if s' != s {
      LocksSame(s, s', h);
      BaseMoves(s, s', h, s'.harts[h].base);
    }
  }

  /** Nobody else is sending to a mailbox that hart h has locked. */
  lemma OneSender(s: State, h: nat, g: nat, t: nat)
    requires LocksOk(s) && h < |s.harts| && g < |s.harts| && g != h
    requires QueLock(t) in Holds(h, s.harts[h])
    ensures !(Sending(s.harts[g].base) && s.harts[g].base.msg.target == t)
  {
    if Sending(s.harts[g].base) && s.harts[g].base.msg.target == t {
      OneHolder(s, g, h, QueLock(t));
    }
  }

  /** Nobody else is about to claim a hart whose state word hart h has locked. */
  lemma OneClaimer(s: State, h: nat, g: nat, t: nat)
    requires LocksOk(s) && h < |s.harts| && g < |s.harts| && g != h
    requires HsmLock(t) in Holds(h, s.harts[h])
    ensures !(s.harts[g].base.Claiming? && s.harts[g].base.target == t)
    ensures g == t ==> !s.harts[g].base.ParkPost?
  {
    if HsmLock(t) in Holds(g, s.harts[g]) {
      OneHolder(s, g, h, HsmLock(t));
    }
  }

  lemma QuietMailbox(s: State, t: nat)
    requires Inv(s) && t < |s.harts| && QueLock(t) !in s.taken
    ensures Ahead(s.harts[t]) == 0 && QueLock(t) !in s.owner
  {
    hide Linked, HoldsOk;
    MailboxAhead(s, t);
    assert BackLinkOk(s, t);
  }

  lemma MailboxAhead(s: State, t: nat)
    requires Inv(s) && t < |s.harts|
    ensures MailOk(s.harts[t])
  {
    assert Local(s, t);
  }

  /** An order with one more command at the end is still a good order. */
  lemma OrderGrows(x: Hart, e: Sent)
    requires MailOk(x) && Ahead(x) == 0 && (e.cmd[0] == STARTHART || Fence(e.cmd))
    ensures MailOk(x.(order := x.order + [e])) && Ahead(x.(order := x.order + [e])) == 1
  {
  }

  lemma OrderGrowsLocal(h: nat, x: Hart, e: Sent)
    requires MailOk(x) && Ahead(x) == 0 && StateOk(h, x) && HistoryOk(h, x)
    ensures StateOk(h, x.(order := x.order + [e])) && HistoryOk(h, x.(order := x.order + [e]))
  {
  }

  lemma OrderGrowsLink(g: nat, b: Base, x: Hart, e: Sent)
    requires LinkOk(g, b, x) && !Sending(b)
    ensures LinkOk(g, b, x.(order := x.order + [e]))
  {
  }

  lemma QueueLink(h: nat, b: Base, x: Hart)
    requires b.Acquire? && b.goal.ToSend? && LinkOk(h, b, x) && Ahead(x) == 0
    ensures LinkOk(h, Poll(b.goal.msg, b.goal.rest), x.(order := x.order + [Sent(h, b.goal.msg.cmd)]))
  {
  }

  lemma QueueOthers(s: State, h: nat, t: nat, e: Sent)
    requires Inv(s) && h < |s.harts| && t < |s.harts| && QueLock(t) !in s.taken
    ensures forall g | 0 <= g < |s.harts| && g != h && Target(s.harts[g].base) == t ::
              LinkOk(g, s.harts[g].base, s.harts[t].(order := s.harts[t].order + [e]))
  {
    hide LinkOk, LocksOk, Local, BackLinkOk;
    var x := s.harts[t];
    forall g | 0 <= g < |s.harts| && g != h && Target(s.harts[g].base) == t
      ensures LinkOk(g, s.harts[g].base, x.(order := x.order + [e]))
    {
      assert Linked(s, g);
      NobodySends(s, g, t);
      OrderGrowsLink(g, s.harts[g].base, x, e);
    }
  }

  lemma MailboxFields(s: State, h: nat, m: Message, rest: seq<Message>)
    requires h < |s.harts| && m.target < |s.harts| && h != m.target
    ensures var s', t := MailboxTaken(s, h, m, rest), m.target;
            && |s'.harts| == |s.harts| && s'.taken == s.taken + {QueLock(t)} && s'.owner == s.owner[QueLock(t) := h]
            && s'.harts[t] == s.harts[t].(order := s.harts[t].order + [Sent(h, m.cmd)])
            && s'.harts[h] == s.harts[h].(base := Poll(m, rest))
            && s'.harts == s.harts[h := s'.harts[h]][t := s'.harts[t]]
  {
  }

  /** The lock of a mailbox is taken: the command gets its place in the order. */
  lemma QueueTakenKeeps(s: State, h: nat, c: Choice)
    requires Inv(s) && Running(s, h) && s.harts[h].base.Acquire? && s.harts[h].base.goal.ToSend?
    requires var b := s.harts[h].base; b.swap && GoalLock(h, b.goal) !in s.taken
    ensures Inv(StepBase(s, h, c))
  {
    hide StateOk, HistoryOk, MailOk, LinkOk, LocksOk, StepBase, StepAcquire, MailboxTaken;
    SenderStep(s, h, c);
    var b := s.harts[h].base;
    var t, e := b.goal.msg.target, Sent(h, b.goal.msg.cmd);
    assert Local(s, h) && Linked(s, h) && Local(s, t) && BackLinkOk(s, t);
    var s', x := MailboxTaken(s, h, b.goal.msg, b.goal.rest), s.harts[t];
    MailboxFields(s, h, b.goal.msg, b.goal.rest);
    QuietMailbox(s, t);
    LocksTaken(s, s', h, QueLock(t));
    OrderGrows(x, e);
    OrderGrowsLocal(t, x, e);
    QueueLink(h, b, x);
    SameLocal(h, s.harts[h], s'.harts[h].base);
    SamePc(s, s', t, x.base);
    assert Local(s', t);
    assert StateOk(h, s'.harts[h]) by { StateMoves(h, s.harts[h], s'.harts[h].base); }
    assert Local(s', h);
    QueueOthers(s, h, t, e);
    TwoMove(s, s', h, t);
  }

  /** ksem_wait: a spin, or a lock taken. */
  lemma AcquireKeeps(s: State, h: nat, c: Choice)
    requires Inv(s) && Running(s, h) && s.harts[h].base.Acquire?
    ensures Inv(StepBase(s, h, c))
  {
    hide Inv, StepBase, GoalLock;
    var b := s.harts[h].base;
    if !b.goal.ToSend? {
      if !b.swap || GoalLock(h, b.goal) in s.taken {
        OtherSpinKeeps(s, h, c);
      } else {
        OtherTakenKeeps(s, h, c);
      }
    } else if !b.swap || GoalLock(h, b.goal) in s.taken {
      QueueSpinKeeps(s, h, c);
    } else {
      QueueTakenKeeps(s, h, c);
    }
  }

  lemma StateMoves(h: nat, x: Hart, b': Base)
    requires StateOk(h, x) && x.irq.Off? && (AtRest(b') <==> AtRest(x.base)) && !b'.ParkPost?
    ensures StateOk(h, x.(base := b'))
  {
  }

  /** With its lock free, nobody is sending to a mailbox. */
  lemma NobodySends(s: State, g: nat, t: nat)
    requires LocksOk(s) && g < |s.harts| && QueLock(t) !in s.taken && Target(s.harts[g].base) == t
    ensures !Sending(s.harts[g].base)
  {
    if Sending(s.harts[g].base) {
      HolderOwns(s, g, QueLock(t));
    }
  }

  /** printm posts its lock. */
  lemma PrintingKeeps(s: State, h: nat, c: Choice)
    requires Inv(s) && Running(s, h) && s.harts[h].base.Printing?
    ensures Inv(StepBase(s, h, c))
  {
    hide LinkOk, MailOk, HistoryOk, StateOk;
    var s', b := StepBase(s, h, c), s.harts[h].base;
    var b' := AfterPrint(s, h, b.after);
    assert Local(s, h);
    LocksPosted(s, s', h, PrintLock);
    Idling(h, b', s.harts[Target(b')]);
    BaseMoves(s, s', h, b');
  }

  /** sbi_hart_start reads the state word under its lock. */
  lemma ReadingKeeps(s: State, h: nat, c: Choice)
    requires Inv(s) && Running(s, h) && s.harts[h].base.Reading?
    ensures Inv(StepBase(s, h, c))
  {
    hide MailOk, HistoryOk;
    var s', b := StepBase(s, h, c), s.harts[h].base;
    assert Local(s, h) && Local(s, b.target);
    LocksSame(s, s', h);
    BaseMoves(s, s', h, s'.harts[h].base);
  }

  /** What the claim changes in the hart that is claimed. */
  function AsClaimed(x: Hart, w: Win): Hart {
    x.(hsm := START_PENDING, token := WithSender(w.starter), wins := x.wins + [w])
  }

  lemma ClaimLocal(t: nat, x: Hart, w: Win)
    requires MailOk(x) && StateOk(t, x) && HistoryOk(t, x) && Resting(x.hsm) && !x.base.ParkPost?
    ensures var x' := AsClaimed(x, w);
            MailOk(x') && StateOk(t, x') && HistoryOk(t, x')
  {
  }

  /** The hart that is about to be claimed rests, and nobody has claimed it. */
  lemma ClaimTarget(h: nat, b: Base, t: nat, x: Hart)
    requires b.Claiming? && LinkOk(h, b, x) && StateOk(t, x)
    ensures Resting(x.hsm) && x.token == NoStart
  {
  }

  lemma ClaimedLink(h: nat, t: nat, addr: nat, arg: nat, x: Hart)
    ensures LinkOk(h, Claimed(t, addr, arg), AsClaimed(x, Win(h, addr, arg)))
  {
  }

  lemma ClaimLink(g: nat, b: Base, x: Hart, w: Win)
    requires LinkOk(g, b, x) && x.token == NoStart && !b.Claiming?
    ensures LinkOk(g, b, AsClaimed(x, w))
  {
  }

  lemma ClaimOthers(s: State, h: nat, t: nat, w: Win)
    requires Inv(s) && Running(s, h) && s.harts[h].base.Claiming? && t == s.harts[h].base.target < |s.harts|
    requires s.harts[t].token == NoStart
    ensures forall g | 0 <= g < |s.harts| && g != h && Target(s.harts[g].base) == t ::
              LinkOk(g, s.harts[g].base, AsClaimed(s.harts[t], w))
  {
    hide LinkOk, LocksOk, Local, BackLinkOk;
    var x := s.harts[t];
    forall g | 0 <= g < |s.harts| && g != h && Target(s.harts[g].base) == t
      ensures LinkOk(g, s.harts[g].base, AsClaimed(x, w))
    {
      assert Linked(s, g);
      OneClaimer(s, h, g, t);
      ClaimLink(g, s.harts[g].base, x, w);
    }
  }

  /** sbi_hart_start writes START_PENDING: this call has won. */
  lemma ClaimingKeeps(s: State, h: nat, c: Choice)
    requires Inv(s) && Running(s, h) && s.harts[h].base.Claiming?
    ensures Inv(StepBase(s, h, c))
  {
    hide MailOk, HistoryOk, StateOk, LinkOk, LocksOk, StepBase;
    SenderStep(s, h, c);
    var s', b := StepBase(s, h, c), s.harts[h].base;
    var t, w := b.target, Win(h, b.addr, b.arg);
    assert Local(s, h) && Linked(s, h) && Local(s, t) && BackLinkOk(s, t);
    var x := s.harts[t];
    OneClaimer(s, h, t, t);
    ClaimTarget(h, b, t, x);
    ClaimLocal(t, x, w);
    ClaimedLink(h, t, b.addr, b.arg, x);
    StateMoves(h, s.harts[h], s'.harts[h].base);
    LocksSame(s, s', h);
    SamePc(s, s', t, x.base);
    SameLocal(h, s.harts[h], s'.harts[h].base);
    assert s'.harts[t] == AsClaimed(x, w);
    ClaimOthers(s, h, t, w);
    TwoMove(s, s', h, t);
  }

  /** The winner posts the HSM lock and goes on to send STARTHART. */
  lemma ClaimedKeeps(s: State, h: nat, c: Choice)
    requires Inv(s) && Running(s, h) && s.harts[h].base.Claimed?
    ensures Inv(StepBase(s, h, c))
  {
    hide MailOk, HistoryOk, StateOk;
    var s', b := StepBase(s, h, c), s.harts[h].base;
    assert Local(s, h) && Linked(s, h);
    LocksPosted(s, s', h, HsmLock(b.target));
    BaseMoves(s, s', h, s'.harts[h].base);
  }

  lemma LosingKeeps(s: State, h: nat, c: Choice)
    requires Inv(s) && Running(s, h) && s.harts[h].base.Losing?
    ensures Inv(StepBase(s, h, c))
  {
    hide LinkOk, MailOk, HistoryOk, StateOk;
    var s', b := StepBase(s, h, c), s.harts[h].base;
    LocksPosted(s, s', h, HsmLock(b.target));
    Idling(h, s'.harts[h].base, s.harts[0]);
    BaseMoves(s, s', h, s'.harts[h].base);
  }

  lemma StatusKeeps(s: State, h: nat, c: Choice)
    requires Inv(s) && Running(s, h) && s.harts[h].base.Status?
    ensures Inv(StepBase(s, h, c))
  {
    hide LinkOk, MailOk, HistoryOk, StateOk;
    var s' := StepBase(s, h, c);
    LocksSame(s, s', h);
    Idling(h, s'.harts[h].base, s.harts[0]);
    BaseMoves(s, s', h, s'.harts[h].base);
  }

  lemma ParkLocal(h: nat, x: Hart, st: HsmState)
    requires MailOk(x) && StateOk(h, x) && HistoryOk(h, x) && x.irq.Off? && !AtRest(x.base) && Resting(st)
    ensures var x' := x.(base := ParkPost, hsm := st, parks := x.parks + 1);
            MailOk(x') && StateOk(h, x') && HistoryOk(h, x')
  {
  }

  lemma ParkLink(g: nat, b: Base, x: Hart, st: HsmState)
    requires LinkOk(g, b, x) && Resting(st)
    ensures LinkOk(g, b, x.(base := ParkPost, hsm := st, parks := x.parks + 1))
  {
  }

  /** sbi_hart_stop and sbi_hart_suspend write the state word of their own hart. */
  lemma ParkWriteKeeps(s: State, h: nat, c: Choice)
    requires Inv(s) && Running(s, h) && s.harts[h].base.ParkWrite?
    ensures Inv(StepBase(s, h, c))
  {
    hide LinkOk, MailOk, HistoryOk, StateOk, LocksOk;
    var s', x := StepBase(s, h, c), s.harts[h];
    assert Local(s, h) && Linked(s, h) && BackLinkOk(s, h);
    LocksSame(s, s', h);
    ParkLocal(h, x, x.base.state);
    Idling(h, ParkPost, s'.harts[0]);
    forall g | 0 <= g < |s.harts| && g != h && Target(s.harts[g].base) == h
      ensures LinkOk(g, s.harts[g].base, s'.harts[h])
    {
      assert Linked(s, g);
      ParkLink(g, s.harts[g].base, x, x.base.state);
    }
    OneMoves(s, s', h);
  }

  /** A hart comes to rest: post, interrupts off, idle loop. */
  lemma RestKeeps(s: State, h: nat, c: Choice)
    requires Inv(s) && Running(s, h) && AtRest(s.harts[h].base)
    ensures Inv(StepBase(s, h, c))
  {
    hide LinkOk, MailOk, HistoryOk, StateOk;
    var s', b := StepBase(s, h, c), s.harts[h].base;
    if !b.Idle? {
      if b.ParkPost? {
        LocksPosted(s, s', h, HsmLock(h));
      } else {
        LocksSame(s, s', h);
      }
      Idling(h, s'.harts[h].base, s.harts[0]);
      BaseMoves(s, s', h, s'.harts[h].base);
    }
  }

  /** A sender finds the mailbox free. */
  lemma PollKeeps(s: State, h: nat, c: Choice)
    requires Inv(s) && Running(s, h) && s.harts[h].base.Poll?
    ensures Inv(StepBase(s, h, c))
  {
    hide MailOk, HistoryOk, StateOk;
    var s' := StepBase(s, h, c);
    assert Local(s, h) && Linked(s, h);
    if s' != s {
      LocksSame(s, s', h);
      BaseMoves(s, s', h, s'.harts[h].base);
    }
  }

  /** A mailbox that is not signalled holds no promise about its slot. */
  lemma SlotLocal(t: nat, x: Hart, slot: Command)
    requires MailOk(x) && StateOk(t, x) && HistoryOk(t, x) && !x.msip
    ensures MailOk(x.(slot := slot)) && StateOk(t, x.(slot := slot)) && HistoryOk(t, x.(slot := slot))
  {
  }

  lemma SlotLink(g: nat, b: Base, x: Hart, slot: Command)
    requires LinkOk(g, b, x) && !Sending(b)
    ensures LinkOk(g, b, x.(slot := slot))
  {
  }

  lemma CopyLink(h: nat, b: Base, x: Hart)
    requires b.Copying? && b.done < 7 && LinkOk(h, b, x)
    ensures LinkOk(h, Copying(b.done + 1, b.msg, b.rest), x.(slot := x.slot[b.done := b.msg.cmd[b.done]]))
  {
    var slot := x.slot[b.done := b.msg.cmd[b.done]];
    assert slot[..b.done + 1] == slot[..b.done] + [slot[b.done]];
    assert b.msg.cmd[..b.done + 1] == b.msg.cmd[..b.done] + [b.msg.cmd[b.done]];
    assert slot[..b.done] == x.slot[..b.done];
  }

  lemma CopyDone(h: nat, b: Base, x: Hart)
    requires b.Copying? && b.done == 7 && LinkOk(h, b, x)
    ensures LinkOk(h, Kick(b.msg, b.rest), x)
  {
    assert x.slot[..7] == x.slot && b.msg.cmd[..7] == b.msg.cmd;
  }

  /** What the sender reads in the mailbox it has locked. */
  lemma Unsignalled(h: nat, b: Base, x: Hart)
    requires (b.Copying? || b.Kick?) && LinkOk(h, b, x)
    ensures !x.msip && Ahead(x) == 1
  {
  }

  lemma CopyOthers(s: State, h: nat, t: nat, slot: Command)
    requires Inv(s) && Running(s, h) && s.harts[h].base.Copying? && t == s.harts[h].base.msg.target < |s.harts|
    ensures forall g | 0 <= g < |s.harts| && g != h && Target(s.harts[g].base) == t ::
              LinkOk(g, s.harts[g].base, s.harts[t].(slot := slot))
  {
    hide LinkOk, LocksOk, Local, BackLinkOk;
    var x := s.harts[t];
    forall g | 0 <= g < |s.harts| && g != h && Target(s.harts[g].base) == t
      ensures LinkOk(g, s.harts[g].base, x.(slot := slot))
    {
      assert Linked(s, g);
      OneSender(s, h, g, t);
      SlotLink(g, s.harts[g].base, x, slot);
    }
  }

  /** The slot is filled, one word a step. */
  lemma CopyWordKeeps(s: State, h: nat, c: Choice)
    requires Inv(s) && Running(s, h) && s.harts[h].base.Copying? && s.harts[h].base.done < 7
    ensures Inv(StepBase(s, h, c))
  {
    hide LinkOk, MailOk, HistoryOk, StateOk, LocksOk, StepBase;
    SenderStep(s, h, c);
    var s', b := StepBase(s, h, c), s.harts[h].base;
    var t := b.msg.target;
    assert Local(s, h) && Linked(s, h) && Local(s, t) && BackLinkOk(s, t);
    var x, slot := s.harts[t], s.harts[t].slot[b.done := b.msg.cmd[b.done]];
    Unsignalled(h, b, x);
    LocksSame(s, s', h);
    SlotLocal(t, x, slot);
    SamePc(s, s', t, x.base);
    SameLocal(h, s.harts[h], s'.harts[h].base);
    StateMoves(h, s.harts[h], s'.harts[h].base);
    CopyLink(h, b, x);
    CopyOthers(s, h, t, slot);
    TwoMove(s, s', h, t);
  }

  lemma CopyEndKeeps(s: State, h: nat, c: Choice)
    requires Inv(s) && Running(s, h) && s.harts[h].base.Copying? && s.harts[h].base.done >= 7
    ensures Inv(StepBase(s, h, c))
  {
    hide LinkOk, MailOk, HistoryOk, StateOk, LocksOk;
    var s', b := StepBase(s, h, c), s.harts[h].base;
    assert Local(s, h) && Linked(s, h);
    LocksSame(s, s', h);
    CopyDone(h, b, s.harts[b.msg.target]);
    BaseMoves(s, s', h, s'.harts[h].base);
  }

  /** What setting msip changes in the mailbox. */
  function Kicked(x: Hart, m: Message): Hart {
    x.(msip := true, token := if m.starts then InMailbox else x.token)
  }

  lemma KickLocal(h: nat, b: Base, t: nat, x: Hart)
    requires b.Kick? && LinkOk(h, b, x) && Target(b) == t && MailOk(x) && StateOk(t, x) && HistoryOk(t, x)
    requires if b.msg.starts then b.msg.cmd[0] == STARTHART else Fence(b.msg.cmd)
    ensures MailOk(Kicked(x, b.msg)) && StateOk(t, Kicked(x, b.msg)) && HistoryOk(t, Kicked(x, b.msg))
    ensures Ahead(Kicked(x, b.msg)) == 0
  {
  }

  lemma KickLink(g: nat, b: Base, x: Hart, m: Message)
    requires LinkOk(g, b, x) && !Sending(b) && (m.starts && Starting(b, Target(b)) ==> x.token != WithSender(g))
    ensures LinkOk(g, b, Kicked(x, m))
  {
  }

  lemma KickedLink(h: nat, b: Base, x: Hart)
    requires b.Kick? && LinkOk(h, b, x)
    ensures LinkOk(h, if b.msg.kind == Que then Release(b.msg, [], b.rest) else Drain(b.msg, b.rest), Kicked(x, b.msg))
  {
  }

  lemma KickStart(h: nat, b: Base, x: Hart)
    requires b.Kick? && LinkOk(h, b, x)
    ensures b.msg.starts ==> x.token == WithSender(h)
  {
  }

  lemma KickOthers(s: State, h: nat, t: nat)
    requires Inv(s) && Running(s, h) && s.harts[h].base.Kick? && t == s.harts[h].base.msg.target < |s.harts|
    ensures forall g | 0 <= g < |s.harts| && g != h && Target(s.harts[g].base) == t ::
              LinkOk(g, s.harts[g].base, Kicked(s.harts[t], s.harts[h].base.msg))
  {
    hide LinkOk, LocksOk, Local, BackLinkOk;
    var b, x := s.harts[h].base, s.harts[t];
    assert Linked(s, h);
    KickStart(h, b, x);
    forall g | 0 <= g < |s.harts| && g != h && Target(s.harts[g].base) == t
      ensures LinkOk(g, s.harts[g].base, Kicked(x, b.msg))
    {
      assert Linked(s, g);
      OneSender(s, h, g, t);
      KickLink(g, s.harts[g].base, x, b.msg);
    }
  }

  /** msip is set: the command is in the mailbox. */
  lemma KickKeeps(s: State, h: nat, c: Choice)
    requires Inv(s) && Running(s, h) && s.harts[h].base.Kick?
    ensures Inv(StepBase(s, h, c))
  {
    hide LinkOk, MailOk, HistoryOk, StateOk, LocksOk, StepBase;
    SenderStep(s, h, c);
    var s', b := StepBase(s, h, c), s.harts[h].base;
    var t := b.msg.target;
    assert Local(s, h) && Linked(s, h) && Local(s, t) && BackLinkOk(s, t);
    var x := s.harts[t];
    KickedLink(h, b, x);
    assert s'.harts[t] == Kicked(x, b.msg);
    LocksSame(s, s', h);
    KickLocal(h, b, t, x);
    SamePc(s, s', t, x.base);
    SameLocal(h, s.harts[h], s'.harts[h].base);
    StateMoves(h, s.harts[h], s'.harts[h].base);
    KickOthers(s, h, t);
    TwoMove(s, s', h, t);
  }

  lemma DrainBounds(h: nat, b: Base, x: Hart)
    requires (b.Drain? || b.ReadBack?) && LinkOk(h, b, x)
    ensures b.ReadBack? ==> |b.acc| <= 7
  {
  }

  /** The waiting sender, one step on. */
  lemma DrainLink(h: nat, b: Base, x: Hart, b': Base)
    requires (b.Drain? || b.ReadBack?) && LinkOk(h, b, x) && (b.ReadBack? ==> |b.acc| <= 7)
    requires b.Drain? ==>
               !x.msip
               && b' == if b.msg.kind == Ret then ReadBack([], b.msg, b.rest) else Release(b.msg, [], b.rest)
    requires b.ReadBack? ==>
               b' == if |b.acc| < 7 then ReadBack(b.acc + [x.slot[|b.acc|]], b.msg, b.rest)
                     else Release(b.msg, b.acc, b.rest)
    ensures LinkOk(h, b', x)
  {
    if b.ReadBack? {
      var n := |b.acc|;
      assert n < 7 ==> x.slot[..n] + [x.slot[n]] == x.slot[..n + 1];
      assert n == 7 ==> x.slot[..n] == x.slot;
    }
  }

  lemma WaitKeeps(s: State, h: nat, c: Choice)
    requires Inv(s) && Running(s, h) && s.harts[h].base.Drain?
    ensures Inv(StepBase(s, h, c))
  {
    hide MailOk, HistoryOk, StateOk, LinkOk;
    var s', b := StepBase(s, h, c), s.harts[h].base;
    assert Local(s, h) && Linked(s, h);
    if s' != s {
      DrainLink(h, b, s.harts[b.msg.target], s'.harts[h].base);
      LocksSame(s, s', h);
      BaseMoves(s, s', h, s'.harts[h].base);
    }
  }

  lemma ReadBackKeeps(s: State, h: nat, c: Choice)
    requires Inv(s) && Running(s, h) && s.harts[h].base.ReadBack?
    ensures Inv(StepBase(s, h, c))
  {
    hide MailOk, HistoryOk, StateOk, LinkOk, StepBase;
    SenderStep(s, h, c);
    var s', b := StepBase(s, h, c), s.harts[h].base;
    assert Local(s, h) && Linked(s, h);
    DrainBounds(h, b, s.harts[b.msg.target]);
    DrainLink(h, b, s.harts[b.msg.target], s'.harts[h].base);
    LocksSame(s, s', h);
    BaseMoves(s, s', h, s'.harts[h].base);
  }

  /** blk and ret wait until the command is consumed; ret then reads the slot, one word a step. */
  lemma DrainKeeps(s: State, h: nat, c: Choice)
    requires Inv(s) && Running(s, h) && (s.harts[h].base.Drain? || s.harts[h].base.ReadBack?)
    ensures Inv(StepBase(s, h, c))
  {
    hide Inv, StepBase;
    if s.harts[h].base.Drain? {
      WaitKeeps(s, h, c);
    } else {
      ReadBackKeeps(s, h, c);
    }
  }

  /** The lock of the mailbox is posted and the next message, if any, begins. */
  lemma ReleaseKeeps(s: State, h: nat, c: Choice)
    requires Inv(s) && Running(s, h) && s.harts[h].base.Release?
    ensures Inv(StepBase(s, h, c))
  {
    hide MailOk, HistoryOk, StateOk;
    var s', b := StepBase(s, h, c), s.harts[h].base;
    var b' := SendAll(b.rest);
    assert Local(s, h) && Linked(s, h);
    NextMessage(s, h, b.rest);
    Idling(h, b', s.harts[Target(b')]);
    LocksPosted(s, s', h, QueLock(b.msg.target));
    BaseMoves(s, s', h, b');
  }

  /** Any step of a hart that is not in the handler. */
  lemma StepBaseKeeps(s: State, h: nat, c: Choice)
    requires Inv(s) && Running(s, h)
    ensures Inv(StepBase(s, h, c))
  {
    hide Inv, StepBase;
    match s.harts[h].base {
      case Kernel(_, _) => CallKeeps(s, h, c);
      case Acquire(_, _) => AcquireKeeps(s, h, c);
      case Printing(_) => PrintingKeeps(s, h, c);
      case Reading(_, _, _) => ReadingKeeps(s, h, c);
      case Claiming(_, _, _) => ClaimingKeeps(s, h, c);
      case Claimed(_, _, _) => ClaimedKeeps(s, h, c);
      case Losing(_) => LosingKeeps(s, h, c);
      case Status(_) => StatusKeeps(s, h, c);
      case ParkWrite(_) => ParkWriteKeeps(s, h, c);
      case ParkPost => RestKeeps(s, h, c);
      case Parked => RestKeeps(s, h, c);
      case Switching => RestKeeps(s, h, c);
      case Idle => RestKeeps(s, h, c);
      case Poll(_, _) => PollKeeps(s, h, c);
      case Copying(done, _, _) =>
        if done < 7 {
          CopyWordKeeps(s, h, c);
        } else {
          CopyEndKeeps(s, h, c);
        }
      case Kick(_, _) => KickKeeps(s, h, c);
      case Drain(_, _) => DrainKeeps(s, h, c);
      case ReadBack(_, _, _) => DrainKeeps(s, h, c);
      case Release(_, _, _) => ReleaseKeeps(s, h, c);
    }
  }
}

/** What every SBI call does for its caller, in every reachable state: what it returns, where a hart that
    does not return comes to rest, and that every message of a call is sent, once and in order. */
module HartCalls {
  import opened HartModel
  import opened HartInvariant
  import opened HartFrame
  import opened HartSteps
  import opened HartHandler
  import opened HartProtocol

  // --- a call against the point that it has reached ---------------------------------------------

  /** A call of sbi_hart_start that gets as far as the state word. */
  predicate Starts(s: State, h: nat, call: Calling, t: nat) {
    call.InCall? && call.choice.CallStart? && call.choice.hartid == t
    && ValidHart(s, t) && ValidAddress(call.choice.addr) && t != h
  }

  predicate StartsWith(s: State, h: nat, call: Calling, t: nat, addr: int, arg: int) {
    Starts(s, h, call, t) && call.choice.addr == addr && call.choice.arg == arg
  }

  /** The claim of such a call is on record. */
  predicate Won(s: State, h: nat, call: Calling, t: nat)
    requires Starts(s, h, call, t)
  {
    Win(h, call.choice.addr, call.choice.arg) in s.harts[t].wins
  }

  /** The state that a call leaves its own hart in; a hart that never ran is stopped. */
  predicate ParksIn(call: Calling, st: HsmState) {
    match call
    case NoCall => st == STOPPED
    case InCall(c) =>
      (c.CallStop? && st == STOPPED)
      || (c.CallSuspend? && st == SUSPENDED && ValidAddress(c.resumeAddr) && Suspends(c.kind))
  }

  /** The calls that are refused at once, after a line has been printed. */
  predicate RefusedAtOnce(s: State, h: nat, c: Choice, error: int) {
    match c
    case CallStart(t, addr, _) =>
      if !ValidHart(s, t) then error == ERR_INVALID_PARAM
      else if !ValidAddress(addr) then error == ERR_INVALID_ADDRESS
      else t == h && error == ERR_ALREADY_AVAILABLE
    case CallOther(e) => error == e
    case _ => false
  }

  /** What a call returns: error and value. */
  predicate Returns(s: State, h: nat, c: Choice, error: int, value: int) {
    match c
    case CallStart(t, addr, arg) =>
      value == 0
      && (RefusedAtOnce(s, h, c, error)
          || (Starts(s, h, InCall(c), t)
              && (error == ERR_ALREADY_AVAILABLE || (error == SUCCESS && Won(s, h, InCall(c), t)))))
    case CallSuspend(kind, addr) =>
      value == 0
      && if !ValidAddress(addr) then error == ERR_INVALID_ADDRESS else !Suspends(kind) && error == SuspendError(kind)
    case CallStatus(t) =>
      if ValidHart(s, t) then error == SUCCESS && 0 <= value <= 6 else error == ERR_INVALID_PARAM && value == 0
    case CallSend(_) => error == SUCCESS && value == 0
    case CallOther(e) => error == e && value == 0
    case _ => false
  }

  predicate PrintsFor(s: State, h: nat, call: Calling, a: After) {
    match a
    case Return(e) => call.InCall? && RefusedAtOnce(s, h, call.choice, e)
    case ThenStop => call == InCall(CallStop)
    case ThenSuspend(kind, addr) => call == InCall(CallSuspend(kind, addr))
    case ThenStatus(t) => call == InCall(CallStatus(t))
    case ThenLose(t) => Starts(s, h, call, t)
  }

  predicate SendsFor(s: State, h: nat, call: Calling, m: Message) {
    if m.starts then StartsWith(s, h, call, m.target, m.cmd[2], m.cmd[3]) && Won(s, h, call, m.target)
    else call.InCall? && call.choice.CallSend?
  }

  predicate WaitsFor(s: State, h: nat, call: Calling, g: Goal) {
    match g
    case ToPrint(a) => PrintsFor(s, h, call, a)
    case ToStart(t, addr, arg) => StartsWith(s, h, call, t, addr, arg)
    case ToPark(st) => call.InCall? && ParksIn(call, st)
    case ToSend(m, _) => SendsFor(s, h, call, m)
  }

  /** The registers that a hart was started with. */
  predicate JustStarted(x: Hart, a0: int, a1: int) {
    if x.launches == [] then a0 == a1 == 0
    else var e := x.launches[|x.launches| - 1]; a0 == e.a0 && a1 == e.a1
  }

  /** Where a hart is, against what its kernel has called. */
  predicate CallOk(s: State, h: nat)
    requires h < |s.harts|
  {
    var x, call := s.harts[h], DiaryOf(s, h).call;
    match x.base
    case Kernel(a0, a1) => if call.InCall? then Returns(s, h, call.choice, a0, a1) else JustStarted(x, a0, a1)
    case Acquire(_, g) => WaitsFor(s, h, call, g)
    case Printing(a) => PrintsFor(s, h, call, a)
    case Reading(t, addr, arg) => StartsWith(s, h, call, t, addr, arg)
    case Claiming(t, addr, arg) => StartsWith(s, h, call, t, addr, arg)
    case Claimed(t, addr, arg) => StartsWith(s, h, call, t, addr, arg) && Won(s, h, call, t)
    case Losing(t) => Starts(s, h, call, t)
    case Status(t) => call == InCall(CallStatus(t)) && ValidHart(s, t)
    case ParkWrite(st) => call.InCall? && ParksIn(call, st)
    case Poll(m, _) => SendsFor(s, h, call, m)
    case Copying(_, m, _) => SendsFor(s, h, call, m)
    case Kick(m, _) => SendsFor(s, h, call, m)
    case Drain(m, _) => SendsFor(s, h, call, m)
    case ReadBack(_, m, _) => SendsFor(s, h, call, m)
    case Release(m, _, _) => SendsFor(s, h, call, m)
    case _ =>
      (call.InCall? ==> ParksIn(call, STOPPED) || ParksIn(call, SUSPENDED))
      && (Resting(x.hsm) ==> ParksIn(call, x.hsm))
  }

  /** What a hart has still to put into an order; its own STARTHART is not counted. */
  function Pending(b: Base): seq<Message> {
    match b
    case Acquire(_, g) => if g.ToSend? && !g.msg.starts then [g.msg] + g.rest else []
    case Poll(_, rest) => rest
    case Copying(_, _, rest) => rest
    case Kick(_, rest) => rest
    case Drain(_, rest) => rest
    case ReadBack(_, _, rest) => rest
    case Release(_, _, rest) => rest
    case _ => []
  }

  predicate SentOk(s: State, h: nat)
    requires h < |s.harts|
  {
    var b, d := s.harts[h].base, DiaryOf(s, h);
    && d.asked == d.ordered + Pending(b)
    && (Sending(b) && !b.msg.starts ==> d.ordered != [] && d.ordered[|d.ordered| - 1] == b.msg)
  }

  predicate CallsOk(s: State) {
    forall h | 0 <= h < |s.harts| :: CallOk(s, h) && SentOk(s, h)
  }

  // --- every step keeps that ----------------------------------------------------------------------

  predicate WinsKept(s: State, s': State) {
    s'.first == s.first && |s'.harts| == |s.harts|
    && forall t | 0 <= t < |s.harts| :: s.harts[t].wins <= s'.harts[t].wins
  }

  lemma StillWon(s: State, s': State, h: nat, call: Calling, t: nat)
    requires WinsKept(s, s') && Starts(s, h, call, t)
    ensures Starts(s', h, call, t) && (Won(s, h, call, t) ==> Won(s', h, call, t))
  {
  }

  /** Hart g is where it was; only its state word may have become START_PENDING. */
  predicate Stays(s: State, s': State, g: nat)
    requires g < |s.harts| == |s'.harts|
  {
    && s'.harts[g].base == s.harts[g].base && s'.harts[g].launches == s.harts[g].launches
    && DiaryOf(s', g) == DiaryOf(s, g)
    && (s'.harts[g].hsm == s.harts[g].hsm || !Resting(s'.harts[g].hsm))
  }

  lemma CallStays(s: State, s': State, g: nat)
    requires g < |s.harts| && WinsKept(s, s') && Stays(s, s', g) && CallOk(s, g) && SentOk(s, g)
    ensures CallOk(s', g) && SentOk(s', g)
  {
    var call := DiaryOf(s, g).call;
    if call.InCall? && call.choice.CallStart? && Starts(s, g, call, call.choice.hartid) {
      StillWon(s, s', g, call, call.choice.hartid);
    }
    hide Won, ValidAddress;
  }

  lemma OthersBySender(s: State, h: nat, g: nat)
    requires h < |s.harts| && g < |s.harts| && g != h
    requires Sending(s.harts[h].base) && s.harts[h].base.msg.target < |s.harts|
    ensures s.harts[h].base.Copying? ==> Stays(s, StepCopy(s, h), g)
    ensures s.harts[h].base.Kick? ==> Stays(s, StepKick(s, h), g)
    ensures s.harts[h].base.ReadBack? ==> Stays(s, StepReadBack(s, h), g)
  {
  }

  lemma OthersByMailbox(s: State, h: nat, m: Message, rest: seq<Message>, g: nat)
    requires h < |s.harts| && g < |s.harts| && g != h && m.target < |s.harts|
    ensures Stays(s, MailboxTaken(s, h, m, rest), g)
  {
  }

  lemma OthersByHsm(s: State, h: nat, g: nat)
    requires h < |s.harts| && g < |s.harts| && g != h
    ensures var b := s.harts[h].base;
            && (b.Claiming? && b.target < |s.harts| ==> Stays(s, StepClaim(s, h), g))
            && (b.ParkWrite? ==> Stays(s, StepParkWrite(s, h), g))
  {
  }

  lemma OthersByCall(s: State, h: nat, c: Choice, g: nat)
    requires g != h
    ensures DiaryOf(Noted(s, h, c), g) == DiaryOf(s, g) && Noted(s, h, c).harts == s.harts
  {
    hide AllSendable;
  }

  lemma OthersByBase(s: State, h: nat, c: Choice, g: nat)
    requires h < |s.harts| && g < |s.harts| && g != h
    ensures Stays(s, StepBase(s, h, c), g)
  {
    hide StepBase, StepAcquire, StepCopy, StepKick, StepReadBack, StepClaim, StepParkWrite, Call, Noted, MailboxTaken;
    var b := s.harts[h].base;
    SenderStep(s, h, c);
    if PlainPoint(s, b) {
      PlainStep(s, h, c);
    } else if b.Kernel? {
      OthersByCall(s, h, c, g);
    } else if b.Acquire? {
      OthersByMailbox(s, h, b.goal.msg, b.goal.rest, g);
    } else if b.Claiming? || b.ParkWrite? {
      OthersByHsm(s, h, g);
    } else {
      OthersBySender(s, h, g);
    }
  }

  lemma OthersByIrq(s: State, h: nat, g: nat)
    requires h < |s.harts| && g < |s.harts| && g != h && !s.harts[h].irq.Off?
    ensures Stays(s, StepIrq(s, h), g)
  {
    hide StepIrq;
    HandlerStep(s, h);
  }

  // --- the hart that moves

  /** The kernel calls: the call is noted, and the hart goes where the call begins. */
  lemma OwnCall(s: State, h: nat, c: Choice)
    requires h < |s.harts| && s.harts[h].base.Kernel? && CallOk(s, h) && SentOk(s, h)
    ensures CallOk(StepBase(s, h, c), h) && SentOk(StepBase(s, h, c), h)
  {
    hide StepBase, AllSendable, CallOk, SentOk, StartCall;
    SenderStep(s, h, c);
    if c.Run? || c.Interrupt? || (c.CallSend? && !AllSendable(s, h, c.msgs)) {
      CallStays(s, StepBase(s, h, c), h);
    } else if c.CallSend? {
      OwnSend(s, h, c.msgs);
    } else {
      OwnNewCall(s, h, c);
    }
  }

  lemma OwnNewCall(s: State, h: nat, c: Choice)
    requires h < |s.harts| && s.harts[h].base.Kernel? && SentOk(s, h)
    requires !c.Run? && !c.Interrupt? && !c.CallSend?
    ensures var s' := SetBase(Noted(s, h, c), h, Call(s, h, c));
            CallOk(s', h) && SentOk(s', h)
  {
    hide ValidAddress, Won;
  }

  lemma OwnSend(s: State, h: nat, msgs: seq<Message>)
    requires h < |s.harts| && s.harts[h].base.Kernel? && SentOk(s, h) && AllSendable(s, h, msgs)
    ensures var s' := SetBase(Noted(s, h, CallSend(msgs)), h, Call(s, h, CallSend(msgs)));
            CallOk(s', h) && SentOk(s', h)
  {
    hide AllSendable, Won;
    if msgs != [] {
      FirstSendable(s, h, msgs);
      assert DiaryOf(s, h).asked + msgs == DiaryOf(s, h).ordered + ([msgs[0]] + msgs[1..]);
    }
  }

  lemma FirstSendable(s: State, h: nat, msgs: seq<Message>)
    requires AllSendable(s, h, msgs) && msgs != []
    ensures !msgs[0].starts && [msgs[0]] + msgs[1..] == msgs
  {
    assert Sendable(s, h, msgs[0]);
  }

  lemma OwnAcquire(s: State, h: nat, c: Choice)
    requires h < |s.harts| && s.harts[h].base.Acquire? && PcOk(s, h, s.harts[h].base) && CallOk(s, h) && SentOk(s, h)
    ensures CallOk(StepBase(s, h, c), h) && SentOk(StepBase(s, h, c), h)
  {
    hide StepBase, StepAcquire, CallOk, SentOk;
    SenderStep(s, h, c);
    if s.harts[h].base.goal.ToSend? {
      OwnQueue(s, h);
    } else {
      OwnLock(s, h);
    }
  }

  lemma OwnLock(s: State, h: nat)
    requires h < |s.harts| && s.harts[h].base.Acquire? && !s.harts[h].base.goal.ToSend? && CallOk(s, h) && SentOk(s, h)
    ensures CallOk(StepAcquire(s, h), h) && SentOk(StepAcquire(s, h), h)
  {
    hide ValidAddress, GoalLock, Suspends;
  }

  lemma OwnQueue(s: State, h: nat)
    requires h < |s.harts| && s.harts[h].base.Acquire? && s.harts[h].base.goal.ToSend?
    requires PcOk(s, h, s.harts[h].base) && CallOk(s, h) && SentOk(s, h)
    ensures CallOk(StepAcquire(s, h), h) && SentOk(StepAcquire(s, h), h)
  {
    hide ValidAddress, RefusedAtOnce, GoalLock, MessageOk, RestOk;
    var d, m, rest := DiaryOf(s, h), s.harts[h].base.goal.msg, s.harts[h].base.goal.rest;
    assert m.target < |s.harts| && m.target != h by {
      MessageTarget(s, h, m);
    }
    if !m.starts {
      assert d.ordered + ([m] + rest) == d.ordered + [m] + rest;
    }
  }

  lemma MessageTarget(s: State, h: nat, m: Message)
    requires MessageOk(s, h, m)
    ensures m.target < |s.harts| && m.target != h
  {
  }

  lemma OwnPrinting(s: State, h: nat, c: Choice)
    requires h < |s.harts| && s.harts[h].base.Printing? && CallOk(s, h) && SentOk(s, h)
    ensures CallOk(StepBase(s, h, c), h) && SentOk(StepBase(s, h, c), h)
  {
    hide ValidAddress, SuspendError;
  }

  lemma OwnStart(s: State, h: nat, c: Choice)
    requires h < |s.harts| && CallOk(s, h) && SentOk(s, h)
    requires var b := s.harts[h].base; b.Reading? || b.Claiming? || b.Claimed? || b.Losing? || b.Status?
    ensures CallOk(StepBase(s, h, c), h) && SentOk(StepBase(s, h, c), h)
  {
    hide StepBase, StepClaim, CallOk, SentOk;
    SenderStep(s, h, c);
    if s.harts[h].base.Claiming? {
      OwnClaim(s, h);
    } else {
      OwnNotClaim(s, h, c);
    }
  }

  lemma OwnNotClaim(s: State, h: nat, c: Choice)
    requires h < |s.harts| && CallOk(s, h) && SentOk(s, h)
    requires var b := s.harts[h].base; b.Reading? || b.Claimed? || b.Losing? || b.Status?
    ensures CallOk(StepBase(s, h, c), h) && SentOk(StepBase(s, h, c), h)
  {
    hide ValidAddress, SuspendError, RefusedAtOnce;
  }

  lemma OwnClaim(s: State, h: nat)
    requires h < |s.harts| && CallOk(s, h) && SentOk(s, h) && s.harts[h].base.Claiming?
    ensures s.harts[h].base.target < |s.harts| && CallOk(StepClaim(s, h), h) && SentOk(StepClaim(s, h), h)
  {
    hide ValidAddress;
    var b := s.harts[h].base;
    assert Win(h, b.addr, b.arg) in s.harts[b.target].wins + [Win(h, b.addr, b.arg)];
  }

  lemma OwnRest(s: State, h: nat, c: Choice)
    requires h < |s.harts| && CallOk(s, h) && SentOk(s, h)
    requires AtRest(s.harts[h].base) || s.harts[h].base.ParkWrite?
    ensures CallOk(StepBase(s, h, c), h) && SentOk(StepBase(s, h, c), h)
  {
    hide ValidAddress;
  }

  lemma OwnSending(s: State, h: nat, c: Choice)
    requires h < |s.harts| && Sending(s.harts[h].base) && PcOk(s, h, s.harts[h].base) && CallOk(s, h) && SentOk(s, h)
    ensures CallOk(StepBase(s, h, c), h) && SentOk(StepBase(s, h, c), h)
  {
    hide StepBase, CallOk, SentOk, StepCopy, StepKick, StepReadBack;
    var b := s.harts[h].base;
    SenderStep(s, h, c);
    if b.Copying? || b.Kick? || b.ReadBack? {
      OwnSlot(s, h);
    } else if b.Release? {
      OwnRelease(s, h, c);
    } else {
      OwnWait(s, h, c);
    }
  }

  /** A send that goes on is for the same call. */
  lemma StillSending(s: State, s': State, h: nat)
    requires h < |s.harts| && Sending(s.harts[h].base) && WinsKept(s, s') && CallOk(s, h) && SentOk(s, h)
    requires Sending(s'.harts[h].base) && s'.harts[h].base.msg == s.harts[h].base.msg
    requires s'.harts[h].base.rest == s.harts[h].base.rest && DiaryOf(s', h) == DiaryOf(s, h)
    ensures CallOk(s', h) && SentOk(s', h)
  {
    hide ValidAddress, Won;
    var call, m := DiaryOf(s, h).call, s.harts[h].base.msg;
    if m.starts {
      StillWon(s, s', h, call, m.target);
    }
  }

  lemma OwnWait(s: State, h: nat, c: Choice)
    requires h < |s.harts| && (s.harts[h].base.Poll? || s.harts[h].base.Drain?) && CallOk(s, h) && SentOk(s, h)
    ensures CallOk(StepBase(s, h, c), h) && SentOk(StepBase(s, h, c), h)
  {
    hide CallOk, SentOk;
    StillSending(s, StepBase(s, h, c), h);
  }

  lemma OwnRelease(s: State, h: nat, c: Choice)
    requires h < |s.harts| && s.harts[h].base.Release? && PcOk(s, h, s.harts[h].base) && CallOk(s, h) && SentOk(s, h)
    ensures CallOk(StepBase(s, h, c), h) && SentOk(StepBase(s, h, c), h)
  {
    hide ValidAddress, RefusedAtOnce, SuspendError;
    var b := s.harts[h].base;
    if b.rest != [] {
      assert [b.rest[0]] + b.rest[1..] == b.rest && b.rest[0] in b.rest;
    }
  }

  lemma OwnSlot(s: State, h: nat)
    requires h < |s.harts| && Sending(s.harts[h].base) && PcOk(s, h, s.harts[h].base) && CallOk(s, h) && SentOk(s, h)
    ensures var b := s.harts[h].base;
            && (b.Copying? ==> CallOk(StepCopy(s, h), h) && SentOk(StepCopy(s, h), h))
            && (b.Kick? ==> CallOk(StepKick(s, h), h) && SentOk(StepKick(s, h), h))
            && (b.ReadBack? ==> CallOk(StepReadBack(s, h), h) && SentOk(StepReadBack(s, h), h))
  {
    hide CallOk, SentOk;
    var b := s.harts[h].base;
    if b.Copying? {
      SlotMoves(s, h);
      StillSending(s, StepCopy(s, h), h);
    } else if b.Kick? {
      SlotMoves(s, h);
      StillSending(s, StepKick(s, h), h);
    } else if b.ReadBack? {
      SlotMoves(s, h);
      StillSending(s, StepReadBack(s, h), h);
    }
  }

  lemma SlotMoves(s: State, h: nat)
    requires h < |s.harts| && Sending(s.harts[h].base) && PcOk(s, h, s.harts[h].base)
    ensures var b := s.harts[h].base;
            && b.msg.target < |s.harts|
            && (b.Copying? ==> WinsKept(s, StepCopy(s, h)))
            && (b.Kick? ==> WinsKept(s, StepKick(s, h)))
            && (b.ReadBack? ==> WinsKept(s, StepReadBack(s, h)))
  {
    hide MessageOk, RestOk;
    MessageTarget(s, h, s.harts[h].base.msg);
  }

  lemma OwnIrq(s: State, h: nat)
    requires h < |s.harts| && !s.harts[h].irq.Off? && CallOk(s, h) && SentOk(s, h)
    requires MailOk(s.harts[h]) && StateOk(h, s.harts[h])
    ensures CallOk(StepIrq(s, h), h) && SentOk(StepIrq(s, h), h)
  {
    hide ValidAddress, MailOk, Returns, StartsWith, WaitsFor, PrintsFor, SendsFor, StateOk, ParksIn, Starts;
    hide StepClearMsip;
    var x, s' := s.harts[h], StepIrq(s, h);
    if x.irq.ClearMsip? {
      OwnClear(s, h);
    } else {
      HandlerStays(s, h);
      CallStays(s, s', h);
    }
  }

  lemma HandlerStays(s: State, h: nat)
    requires h < |s.harts| && !s.harts[h].irq.Off? && !s.harts[h].irq.ClearMsip?
    ensures WinsKept(s, StepIrq(s, h)) && Stays(s, StepIrq(s, h), h)
  {
    hide StepIrq;
    HandlerStep(s, h);
  }

  lemma OwnClear(s: State, h: nat)
    requires h < |s.harts| && s.harts[h].irq.ClearMsip? && CallOk(s, h) && SentOk(s, h) && StateOk(h, s.harts[h])
    ensures CallOk(StepClearMsip(s, h), h) && SentOk(StepClearMsip(s, h), h)
  {
    hide ValidAddress;
  }

  lemma OwnBase(s: State, h: nat, c: Choice)
    requires Inv(s) && Running(s, h) && CallOk(s, h) && SentOk(s, h)
    ensures CallOk(StepBase(s, h, c), h) && SentOk(StepBase(s, h, c), h)
  {
    assert Local(s, h);
    hide StepBase, CallOk, SentOk, Inv;
    var b := s.harts[h].base;
    if b.Kernel? {
      OwnCall(s, h, c);
    } else if b.Acquire? {
      OwnAcquire(s, h, c);
    } else if b.Printing? {
      OwnPrinting(s, h, c);
    } else if b.ParkWrite? || AtRest(b) {
      OwnRest(s, h, c);
    } else if Sending(b) {
      OwnSending(s, h, c);
    } else {
      OwnStart(s, h, c);
    }
  }

  lemma StepCallsOk(s: State, h: nat, c: Choice)
    requires Inv(s) && h < |s.harts| && CallsOk(s)
    ensures CallsOk(Step(s, h, c)) && WinsKept(s, Step(s, h, c))
  {
    hide StepBase, StepIrq, CallOk, SentOk;
    var s', x := Step(s, h, c), s.harts[h];
    forall t | 0 <= t < |s.harts| ensures s.harts[t].wins <= s'.harts[t].wins {
      HistoryGrows(s, h, c, t);
    }
    assert Local(s, h);
    hide Inv, Local, Step;
    forall g | 0 <= g < |s.harts| ensures CallOk(s', g) && SentOk(s', g) {
      assert CallOk(s, g) && SentOk(s, g);
      MovedOrNot(s, h, c, g);
    }
  }

  lemma MovedOrNot(s: State, h: nat, c: Choice, g: nat)
    requires Inv(s) && h < |s.harts| && g < |s.harts| && CallOk(s, g) && SentOk(s, g) && WinsKept(s, Step(s, h, c))
    ensures CallOk(Step(s, h, c), g) && SentOk(Step(s, h, c), g)
  {
    assert Local(s, h);
    hide StepBase, StepIrq, CallOk, SentOk, Inv, WinsKept;
    var s', x := Step(s, h, c), s.harts[h];
    if !x.irq.Off? {
      if g == h {
        OwnIrq(s, h);
      } else {
        OthersByIrq(s, h, g);
        CallStays(s, s', g);
      }
    } else if c == Interrupt && x.msip && !x.base.Switching? {
      CallStays(s, s', g);
    } else if g == h {
      OwnBase(s, h, c);
    } else {
      OthersByBase(s, h, c, g);
      CallStays(s, s', g);
    }
  }

  lemma {:induction false} ExecCallsOk(n: nat, first: nat, schedule: seq<Turn>)
    ensures CallsOk(Reached(n, first, schedule)) && Reached(n, first, schedule).first == first
    decreases |schedule|
  {
    hide CallsOk, Step, Inv;
    if schedule == [] {
      BootCallsOk(n, first);
    } else {
      var before, turn := schedule[..|schedule| - 1], schedule[|schedule| - 1];
      ExecCallsOk(n, first, before);
      ReachedInv(n, first, before);
      if turn.hart < n {
        StepCallsOk(Reached(n, first, before), turn.hart, turn.choice);
      }
    }
  }

  lemma BootCallsOk(n: nat, first: nat)
    ensures CallsOk(Boot(n, first))
  {
    var s := Boot(n, first);
    forall h | 0 <= h < n ensures CallOk(s, h) && SentOk(s, h) {
      assert s.harts[h] == Fresh(h);
    }
  }

  // --- what calls return ----------------------------------------------------------------------------

  /** What a call that is over has returned, in every reachable state.  A hart that stops is not seen again
      until it is started, and nor is one that suspends with a valid address and one of the two types. */
  lemma CallReturns(n: nat, first: nat, schedule: seq<Turn>, h: nat)
    requires h < n
    ensures var s := Reached(n, first, schedule);
            var b, call := s.harts[h].base, DiaryOf(s, h).call;
            b.Kernel? && call.InCall? ==>
              match call.choice
              case CallStart(t, addr, arg) =>
                && b.a1 == 0
                && (b.a0 == -3 <==> !(first <= t < n))
                && (b.a0 == -5 <==> first <= t < n && !(addr % 4 == 0 && 0x8000_0000 <= addr < 0x8800_0000))
                && (first <= t < n && addr % 4 == 0 && 0x8000_0000 <= addr < 0x8800_0000 ==>
                      b.a0 == -6 || (b.a0 == 0 && t != h && Win(h, addr, arg) in s.harts[t].wins))
              case CallStop => false
              case CallSuspend(kind, addr) =>
                && b.a1 == 0
                && (if !(addr % 4 == 0 && 0x8000_0000 <= addr < 0x8800_0000) then b.a0 == -5
                    else kind != 0 && kind != 0x8000_0000
                         && b.a0 == if kind <= 0xFFFF_FFFF && kind % 0x8000_0000 >= 0x1000_0000 then -2 else -3)
              case CallStatus(t) =>
                if first <= t < n then b.a0 == 0 && 0 <= b.a1 <= 6 else b.a0 == -3 && b.a1 == 0
              case CallSend(_) => b.a0 == b.a1 == 0
              case CallOther(e) => b.a0 == e && b.a1 == 0
              case Run => false
              case Interrupt => false
  {
    hide Reached;
    ExecCallsOk(n, first, schedule);
    var s := Reached(n, first, schedule);
    assert CallOk(s, h);
  }

  /** Where the harts that do not return come to rest.  With no interrupt being handled, a hart is at rest
      exactly while it is not STARTED; until it is claimed its state is that of its own last call. */
  lemma RestsIn(n: nat, first: nat, schedule: seq<Turn>, h: nat)
    requires h < n
    ensures var s := Reached(n, first, schedule);
            var x, call := s.harts[h], DiaryOf(s, h).call;
            var rests := x.base.ParkPost? || x.base.Parked? || x.base.Switching? || x.base.Idle?;
            && (x.irq.Off? ==> (rests <==> x.hsm != STARTED))
            && (rests && (x.hsm == STOPPED || x.hsm == SUSPENDED) ==>
                  match call
                  case NoCall => x.hsm == STOPPED
                  case InCall(CallStop) => x.hsm == STOPPED
                  case InCall(CallSuspend(kind, addr)) =>
                    && x.hsm == SUSPENDED && (kind == 0 || kind == 0x8000_0000)
                    && addr % 4 == 0 && 0x8000_0000 <= addr < 0x8800_0000
                  case _ => false)
  {
    hide Reached, MailOk, HistoryOk, PcOk, Linked, BackLinkOk, LocksOk;
    ExecCallsOk(n, first, schedule);
    ReachedInv(n, first, schedule);
    var s := Reached(n, first, schedule);
    assert CallOk(s, h) && Local(s, h);
  }

  /** Which calls of sbi_hart_start go on to the state word of their target, and how the others go on. */
  lemma StartDecides(s: State, h: nat, t: nat, addr: nat, arg: nat)
    requires h < |s.harts| && s.harts[h].base.Kernel? && s.harts[h].irq.Off?
    ensures var s' := StepBase(s, h, CallStart(t, addr, arg));
            var x' := s'.harts[h];
            && DiaryOf(s', h).call == InCall(CallStart(t, addr, arg))
            && (s.first <= t < |s.harts| && addr % 4 == 0 && 0x8000_0000 <= addr < 0x8800_0000 && t != h <==>
                  Spinning(h, x') == SpinsOn(HsmLock(t)) && x'.base == Acquire(false, ToStart(t, addr, arg)))
            && (!(s.first <= t < |s.harts|) ==> x'.base == Acquire(false, ToPrint(Return(-3))))
            && (s.first <= t < |s.harts| && !(addr % 4 == 0 && 0x8000_0000 <= addr < 0x8800_0000) ==>
                  x'.base == Acquire(false, ToPrint(Return(-5))))
            && (s.first <= t < |s.harts| && addr % 4 == 0 && 0x8000_0000 <= addr < 0x8800_0000 && t == h ==>
                  x'.base == Acquire(false, ToPrint(Return(-6))))
  {
  }

  /** A call is noted as it is made.  Sends that the firmware never makes are not calls. */
  lemma CallIsNoted(s: State, h: nat, c: Choice)
    requires h < |s.harts| && s.harts[h].base.Kernel?
    ensures var d, d' := DiaryOf(s, h), DiaryOf(StepBase(s, h, c), h);
            match c
            case Run => d' == d
            case Interrupt => d' == d
            case CallSend(msgs) =>
              if forall m <- msgs :: s.first <= m.target < |s.harts| && m.target != h && m.cmd[0] in {17, 18, 19, 20}
                                     && !m.starts
              then d' == Diary(InCall(c), d.asked + msgs, d.ordered)
              else d' == d && StepBase(s, h, c).harts[h].base == s.harts[h].base
            case _ => d' == d.(call := InCall(c))
  {
    hide StartCall;
    if c.CallSend? {
      SendableIs(s, h, c.msgs);
    }
  }

  lemma SendableIs(s: State, h: nat, msgs: seq<Message>)
    ensures AllSendable(s, h, msgs)
            <==> forall m <- msgs :: s.first <= m.target < |s.harts| && m.target != h
                                     && m.cmd[0] in {17, 18, 19, 20} && !m.starts
  {
    if AllSendable(s, h, msgs) {
      forall m <- msgs ensures s.first <= m.target < |s.harts| && m.target != h
                               && m.cmd[0] in {17, 18, 19, 20} && !m.starts {
        assert Sendable(s, h, m);
      }
    }
  }

  /** The state that everything starts from. */
  lemma BootIs(n: nat, first: nat, h: nat)
    requires h < n
    ensures var s := Boot(n, first);
            var x := s.harts[h];
            && |s.harts| == n && s.first == first && s.taken == {} && s.owner == map[] && DiaryOf(s, h).call == NoCall
            && x.irq.Off? && !x.msip && x.order == [] && x.handled == [] && x.wins == [] && x.launches == []
            && (if h == 0 then x.base == Kernel(0, 0) && x.hsm == STARTED else x.base == Idle && x.hsm == STOPPED)
            && DiaryOf(s, h).asked == DiaryOf(s, h).ordered == []
  {
    assert Boot(n, first).harts[h] == Fresh(h);
  }

  /** What sbi_hart_get_status reads. */
  lemma StatusReads(s: State, h: nat, c: Choice)
    requires h < |s.harts| && s.harts[h].base.Status? && s.harts[h].base.target < |s.harts|
    ensures var b' := StepBase(s, h, c).harts[h].base;
            b'.Kernel? && b'.a0 == 0
            && match s.harts[s.harts[h].base.target].hsm
               case STARTED => b'.a1 == 0
               case STOPPED => b'.a1 == 1
               case START_PENDING => b'.a1 == 2
               case STOP_PENDING => b'.a1 == 3
               case SUSPENDED => b'.a1 == 4
               case SUSPEND_PENDING => b'.a1 == 5
               case RESUME_PENDING => b'.a1 == 6
  {
  }

  // --- every message is sent, once and in order ---------------------------------------------------

  /** The commands in a mailbox's order that one hart has sent there, but for its STARTHARTs. */
  function FromSender(order: seq<Sent>, h: nat): seq<Command> {
    if order == [] then []
    else
      var e := order[|order| - 1];
      FromSender(order[..|order| - 1], h) + if e.sender == h && e.cmd[0] != STARTHART then [e.cmd] else []
  }

  /** The commands for one target. */
  function ToTarget(msgs: seq<Message>, t: nat): seq<Command> {
    if msgs == [] then []
    else
      var m := msgs[|msgs| - 1];
      ToTarget(msgs[..|msgs| - 1], t) + if m.target == t then [m.cmd] else []
  }

  lemma OneMore(order: seq<Sent>, e: Sent, msgs: seq<Message>, m: Message, h: nat, t: nat)
    ensures FromSender(order + [e], h)
            == FromSender(order, h) + if e.sender == h && e.cmd[0] != STARTHART then [e.cmd] else []
    ensures ToTarget(msgs + [m], t) == ToTarget(msgs, t) + if m.target == t then [m.cmd] else []
  {
    assert (order + [e])[..|order|] == order && (msgs + [m])[..|msgs|] == msgs;
  }

  /** Hart h and mailbox t agree on what h has sent to t. */
  predicate Agree(s: State, h: nat, t: nat)
    requires t < |s.harts|
  {
    FromSender(s.harts[t].order, h) == ToTarget(DiaryOf(s, h).ordered, t)
  }

  predicate NothingQueued(s: State, s': State) {
    |s'.harts| == |s.harts|
    && (forall t | 0 <= t < |s.harts| :: s'.harts[t].order == s.harts[t].order)
    && (forall g | 0 <= g < |s.harts| :: DiaryOf(s', g).ordered == DiaryOf(s, g).ordered)
  }

  /** A message takes its place. */
  predicate Queues(s: State, s': State, h: nat, m: Message)
    requires h < |s.harts| && m.target < |s.harts|
  {
    && |s'.harts| == |s.harts|
    && (forall t | 0 <= t < |s.harts| ::
          s'.harts[t].order == s.harts[t].order + if t == m.target then [Sent(h, m.cmd)] else [])
    && (forall g | 0 <= g < |s.harts| ::
          DiaryOf(s', g).ordered == DiaryOf(s, g).ordered + if g == h && !m.starts then [m] else [])
  }

  lemma QueuesAgree(s: State, s': State, h: nat, m: Message, g: nat, t: nat)
    requires h < |s.harts| && m.target < |s.harts| && Queues(s, s', h, m) && g < |s.harts| && t < |s.harts|
    requires Agree(s, g, t) && (m.starts <==> m.cmd[0] == STARTHART)
    ensures Agree(s', g, t)
  {
    OneMore(s.harts[t].order, Sent(h, m.cmd), DiaryOf(s, g).ordered, m, g, t);
    assert s.harts[t].order + [] == s.harts[t].order && DiaryOf(s, g).ordered + [] == DiaryOf(s, g).ordered;
    assert s'.harts[t].order == s.harts[t].order + if t == m.target then [Sent(h, m.cmd)] else [];
    hide FromSender, ToTarget;
  }

  lemma MailboxQueues(s: State, h: nat, m: Message, rest: seq<Message>)
    requires h < |s.harts| && m.target < |s.harts|
    ensures Queues(s, MailboxTaken(s, h, m, rest), h, m)
  {
  }

  lemma SlotQueues(s: State, h: nat)
    requires h < |s.harts| && Sending(s.harts[h].base) && s.harts[h].base.msg.target < |s.harts|
    ensures s.harts[h].base.Copying? ==> NothingQueued(s, StepCopy(s, h))
    ensures s.harts[h].base.Kick? ==> NothingQueued(s, StepKick(s, h))
    ensures s.harts[h].base.ReadBack? ==> NothingQueued(s, StepReadBack(s, h))
  {
  }

  lemma HsmQueues(s: State, h: nat)
    requires h < |s.harts|
    ensures var b := s.harts[h].base;
            && (b.Claiming? && b.target < |s.harts| ==> NothingQueued(s, StepClaim(s, h)))
            && (b.ParkWrite? ==> NothingQueued(s, StepParkWrite(s, h)))
  {
  }

  lemma CallQueues(s: State, h: nat, c: Choice)
    ensures NothingQueued(s, Noted(s, h, c))
  {
    hide AllSendable;
  }

  lemma BaseQueues(s: State, h: nat, c: Choice)
    requires h < |s.harts|
    ensures var b, s' := s.harts[h].base, StepBase(s, h, c);
            if TakesMailbox(s, b) then Queues(s, s', h, b.goal.msg) else NothingQueued(s, s')
  {
    hide StepBase, StepAcquire, StepCopy, StepKick, StepReadBack, StepClaim, StepParkWrite, Call, Noted;
    hide MailboxTaken, Queues;
    var b := s.harts[h].base;
    SenderStep(s, h, c);
    if PlainPoint(s, b) {
      PlainStep(s, h, c);
    } else if b.Kernel? {
      CallQueues(s, h, c);
    } else if b.Acquire? {
      MailboxQueues(s, h, b.goal.msg, b.goal.rest);
    } else if b.Claiming? || b.ParkWrite? {
      HsmQueues(s, h);
    } else {
      SlotQueues(s, h);
    }
  }

  lemma IrqQueues(s: State, h: nat)
    requires h < |s.harts| && !s.harts[h].irq.Off?
    ensures NothingQueued(s, StepIrq(s, h))
  {
    hide StepIrq;
    HandlerStep(s, h);
  }

  /** Every mailbox agrees with every sender. */
  predicate AllAgree(s: State) {
    forall g, t | 0 <= g < |s.harts| && 0 <= t < |s.harts| :: Agree(s, g, t)
  }

  lemma StepAgrees(s: State, h: nat, c: Choice)
    requires Inv(s) && h < |s.harts| && AllAgree(s)
    ensures AllAgree(Step(s, h, c))
  {
    assert Local(s, h);
    hide StepBase, StepIrq, Inv, Agree, Queues;
    var s', b := Step(s, h, c), s.harts[h].base;
    if !s.harts[h].irq.Off? {
      IrqQueues(s, h);
      NothingAgrees(s, s');
    } else if c == Interrupt && s.harts[h].msip && !b.Switching? {
      NothingAgrees(s, s');
    } else {
      BaseQueues(s, h, c);
      if TakesMailbox(s, b) {
        StartsMarked(s, h, b.goal.msg, b.goal.rest);
        forall g, t | 0 <= g < |s.harts| && 0 <= t < |s.harts| ensures Agree(s', g, t) {
          assert Agree(s, g, t);
          QueuesAgree(s, s', h, b.goal.msg, g, t);
        }
      } else {
        NothingAgrees(s, s');
      }
    }
  }

  lemma StartsMarked(s: State, h: nat, m: Message, rest: seq<Message>)
    requires LoadOk(s, h, m, rest)
    ensures m.starts <==> m.cmd[0] == STARTHART
  {
  }

  lemma NothingAgrees(s: State, s': State)
    requires AllAgree(s) && NothingQueued(s, s')
    ensures AllAgree(s')
  {
    forall g, t | 0 <= g < |s.harts| && 0 <= t < |s.harts| ensures Agree(s', g, t) {
      assert Agree(s, g, t);
    }
  }

  lemma {:induction false} ExecAgrees(n: nat, first: nat, schedule: seq<Turn>)
    ensures AllAgree(Reached(n, first, schedule))
    decreases |schedule|
  {
    hide AllAgree, Step, Inv;
    if schedule == [] {
      BootAgrees(n, first);
    } else {
      var before, turn := schedule[..|schedule| - 1], schedule[|schedule| - 1];
      ExecAgrees(n, first, before);
      ReachedInv(n, first, before);
      if turn.hart < n {
        StepAgrees(Reached(n, first, before), turn.hart, turn.choice);
      }
    }
  }

  lemma BootAgrees(n: nat, first: nat)
    ensures AllAgree(Boot(n, first))
  {
    var s := Boot(n, first);
    forall g, t | 0 <= g < n && 0 <= t < n ensures Agree(s, g, t) {
      assert s.harts[t] == Fresh(t);
    }
  }

  lemma {:induction false} InOrder(order: seq<Sent>, h: nat, c: Command)
    requires c in FromSender(order, h)
    ensures Sent(h, c) in order
  {
    if order != [] {
      var e := order[|order| - 1];
      if c in FromSender(order[..|order| - 1], h) {
        InOrder(order[..|order| - 1], h, c);
      } else {
        assert e == Sent(h, c);
      }
    }
  }

  lemma {:induction false} InTarget(msgs: seq<Message>, m: Message)
    requires m in msgs
    ensures m.cmd in ToTarget(msgs, m.target)
  {
    if m != msgs[|msgs| - 1] {
      assert m in msgs[..|msgs| - 1];
      InTarget(msgs[..|msgs| - 1], m);
    }
  }

  /** The messages of calls go to harts. */
  predicate OrderedOk(s: State, h: nat) {
    forall m <- DiaryOf(s, h).ordered :: m.target < |s.harts| && !m.starts
  }

  lemma StepOrderedOk(s: State, h: nat, c: Choice)
    requires Inv(s) && h < |s.harts| && forall g | 0 <= g < |s.harts| :: OrderedOk(s, g)
    ensures forall g | 0 <= g < |s.harts| :: OrderedOk(Step(s, h, c), g)
  {
    hide StepBase, StepIrq, Inv;
    var s', b := Step(s, h, c), s.harts[h].base;
    if !s.harts[h].irq.Off? {
      IrqQueues(s, h);
    } else if !(c == Interrupt && s.harts[h].msip && !b.Switching?) {
      BaseQueues(s, h, c);
    }
    forall g | 0 <= g < |s.harts| ensures OrderedOk(s', g) {
      assert OrderedOk(s, g);
    }
  }

  lemma {:induction false} ExecOrderedOk(n: nat, first: nat, schedule: seq<Turn>)
    ensures forall g | 0 <= g < n :: OrderedOk(Reached(n, first, schedule), g)
    decreases |schedule|
  {
    hide Step, Inv;
    if schedule != [] {
      var before, turn := schedule[..|schedule| - 1], schedule[|schedule| - 1];
      ExecOrderedOk(n, first, before);
      ReachedInv(n, first, before);
      if turn.hart < n {
        StepOrderedOk(Reached(n, first, before), turn.hart, turn.choice);
      }
    }
  }

  /** Nothing that calls were asked to send is lost: what has been asked is what has its place in an order,
      then the message that the hart waits to send, then the rest.  A hart that is back in its kernel has
      sent all of it.  Each mailbox has, in its order, exactly the commands for it, each once. */
  lemma AllSent(n: nat, first: nat, schedule: seq<Turn>, h: nat)
    requires h < n
    ensures var s := Reached(n, first, schedule);
            var b, d := s.harts[h].base, DiaryOf(s, h);
            && (b.Kernel? || b.Idle? ==> d.asked == d.ordered)
            && (b.Acquire? && b.goal.ToSend? && !b.goal.msg.starts ==>
                  d.asked == d.ordered + [b.goal.msg] + b.goal.rest)
            && (b.Poll? || b.Copying? || b.Kick? || b.Drain? || b.ReadBack? || b.Release? ==>
                  d.asked == d.ordered + b.rest && (!b.msg.starts ==> b.msg in d.ordered))
            && (forall m <- d.ordered :: m.target < n && Sent(h, m.cmd) in s.harts[m.target].order)
            && (forall t | 0 <= t < n :: FromSender(s.harts[t].order, h) == ToTarget(d.ordered, t))
  {
    hide Reached, FromSender, ToTarget, CallOk;
    ExecCallsOk(n, first, schedule);
    ExecAgrees(n, first, schedule);
    ExecOrderedOk(n, first, schedule);
    var s := Reached(n, first, schedule);
    var b, d := s.harts[h].base, DiaryOf(s, h);
    assert SentOk(s, h) && OrderedOk(s, h);
    forall m <- d.ordered ensures m.target < n && Sent(h, m.cmd) in s.harts[m.target].order {
      assert Agree(s, h, m.target);
      InTarget(d.ordered, m);
      InOrder(s.harts[m.target].order, h, m.cmd);
    }
    forall t | 0 <= t < n ensures FromSender(s.harts[t].order, h) == ToTarget(d.ordered, t) {
      assert Agree(s, h, t);
    }
    if b.Acquire? && b.goal.ToSend? && !b.goal.msg.starts {
      assert d.ordered + ([b.goal.msg] + b.goal.rest) == d.ordered + [b.goal.msg] + b.goal.rest;
    }
  }
}

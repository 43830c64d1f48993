/** Every step of every hart keeps the invariant: the steps of the software interrupt handler. */
module HartHandler {
  import opened HartModel
  import opened HartInvariant
  import opened HartFrame

  predicate Handling(s: State, h: nat) {
    h < |s.harts| && !s.harts[h].irq.Off?
  }

  /** The handler changes its own hart: its order of commands and its claims never, and its base and its
      diary only as it leaves for the kernel. */
  ghost predicate ByHandler(s: State, s': State, h: nat)
    requires h < |s.harts|
  {
    && |s'.harts| == |s.harts| && s'.harts == s.harts[h := s'.harts[h]]
    && s'.harts[h].order == s.harts[h].order && s'.harts[h].wins == s.harts[h].wins
    && s.harts[h].handled <= s'.harts[h].handled && s.harts[h].launches <= s'.harts[h].launches
    && (forall g: nat :: g != h ==> DiaryOf(s', g) == DiaryOf(s, g)) && DiaryOf(s', h).ordered == DiaryOf(s, h).ordered
    && (!s.harts[h].irq.ClearMsip? ==>
          && s'.harts[h].base == s.harts[h].base && s'.harts[h].launches == s.harts[h].launches
          && DiaryOf(s', h) == DiaryOf(s, h)
          && (s'.harts[h].hsm == s.harts[h].hsm || s'.harts[h].hsm == STARTED))
  }

  lemma HandlerStep(s: State, h: nat)
    requires Handling(s, h)
    ensures ByHandler(s, StepIrq(s, h), h)
  {
    hide Dispatch, StartEntry, ByHandler, SetIrq, StepClearMsip;
    if s.harts[h].irq.ClearMsip? {
      ClearByHandler(s, h);
    } else if s.harts[h].irq.StartPrinting? || s.harts[h].irq.StartWrite? || s.harts[h].irq.ClearCommand? {
      WriteByHandler(s, h);
    } else {
      NothingByHandler(s, h);
      forall i ensures ByHandler(s, SetIrq(s, h, i), h) {
        IrqByHandler(s, h, i);
      }
      forall i, l ensures ByHandler(s, Take(SetIrq(s, h, i), h, l), h) {
        TakeByHandler(s, h, i, l);
      }
      forall i, l ensures ByHandler(s, SetIrq(Post(s, l), h, i), h) {
        PostByHandler(s, h, i, l);
      }
    }
  }

  lemma NothingByHandler(s: State, h: nat)
    requires h < |s.harts|
    ensures ByHandler(s, s, h)
  {
    assert s.harts[h := s.harts[h]] == s.harts;
  }

  lemma IrqByHandler(s: State, h: nat, i: Irq)
    requires h < |s.harts|
    ensures ByHandler(s, SetIrq(s, h, i), h)
  {
  }

  lemma TakeByHandler(s: State, h: nat, i: Irq, l: Lock)
    requires h < |s.harts|
    ensures ByHandler(s, Take(SetIrq(s, h, i), h, l), h)
  {
  }

  lemma PostByHandler(s: State, h: nat, i: Irq, l: Lock)
    requires h < |s.harts|
    ensures |Post(s, l).harts| == |s.harts| && ByHandler(s, SetIrq(Post(s, l), h, i), h)
  {
  }

  lemma WriteByHandler(s: State, h: nat)
    requires Handling(s, h)
    requires s.harts[h].irq.StartPrinting? || s.harts[h].irq.StartWrite? || s.harts[h].irq.ClearCommand?
    ensures ByHandler(s, StepIrq(s, h), h)
  {
  }

  lemma ClearByHandler(s: State, h: nat)
    requires Handling(s, h) && s.harts[h].irq.ClearMsip?
    ensures ByHandler(s, StepClearMsip(s, h), h)
  {
  }

  predicate OneOk(h: nat, x: Hart) {
    MailOk(x) && StateOk(h, x) && HistoryOk(h, x)
  }

  /** The handler moves on and touches nothing but locks and its own registers. */
  lemma HandlerMoves(s: State, s': State, h: nat, x': Hart)
    requires Inv(s) && h < |s.harts| && s'.harts == s.harts[h := x']
    requires x'.base == s.harts[h].base && SameMail(s.harts[h], x') && OneOk(h, x') && LocksOk(s')
    requires forall k | 0 <= k < |s.harts| && Ahead(s.harts[k]) == 1 :: SameQueue(s, s', k)
    ensures Inv(s')
  {
    hide LocksOk, LinkOk, MailOk, StateOk, HistoryOk;
    var x := s.harts[h];
    assert Local(s, h) && Linked(s, h) && BackLinkOk(s, h);
    SamePc(s, s', h, x.base);
    LinkSame(h, x.base, s.harts[Target(x.base)], s'.harts[Target(x.base)]);
    forall g | 0 <= g < |s.harts| && g != h && Target(s.harts[g].base) == h ensures LinkOk(g, s.harts[g].base, x') {
      assert Linked(s, g);
      LinkSame(g, s.harts[g].base, x, x');
    }
    OneMoves(s, s', h);
  }

  /** The handler changes the mailbox or the state word of its own hart. */
  lemma HandlerWrites(s: State, s': State, h: nat, x': Hart)
    requires Inv(s) && h < |s.harts| && s'.harts == s.harts[h := x'] && s'.owner == s.owner
    requires OneOk(h, x') && LocksOk(s') && Ahead(x') == Ahead(s.harts[h])
    requires x'.token == s.harts[h].token || x'.token == NoStart
    requires x'.base == s.harts[h].base || (AtRest(s.harts[h].base) && x'.base.Kernel?)
    requires forall g | 0 <= g < |s.harts| && g != h && Target(s.harts[g].base) == h :: LinkOk(g, s.harts[g].base, x')
    ensures Inv(s')
  {
    hide LocksOk, LinkOk, MailOk, StateOk, HistoryOk;
    var x := s.harts[h];
    assert Local(s, h) && Linked(s, h) && BackLinkOk(s, h);
    SamePc(s, s', h, x.base);
    OwnLink(s, s', h, x');
    OneMoves(s, s', h);
  }

  lemma OwnLink(s: State, s': State, h: nat, x': Hart)
    requires h < |s.harts| && Linked(s, h) && s'.harts == s.harts[h := x'] && PcOk(s, h, s.harts[h].base)
    requires x'.base == s.harts[h].base || (AtRest(s.harts[h].base) && x'.base.Kernel?)
    ensures Linked(s', h)
  {
  }

  // --- the steps ----------------------------------------------------------------------------------

  lemma TakenLocal(h: nat, x: Hart)
    requires OneOk(h, x) && x.irq.Off? && x.msip && !x.base.Switching?
    ensures OneOk(h, x.(irq := Fetch([])))
  {
  }

  /** The interrupt is taken. */
  lemma InterruptKeeps(s: State, h: nat)
    requires Inv(s) && h < |s.harts| && s.harts[h].irq.Off? && s.harts[h].msip && !s.harts[h].base.Switching?
    ensures Inv(SetIrq(s, h, Fetch([])))
  {
    hide LocksOk, MailOk, StateOk, HistoryOk;
    var s', x := SetIrq(s, h, Fetch([])), s.harts[h];
    assert Local(s, h);
    TakenLocal(h, x);
    LocksSame(s, s', h);
    HandlerMoves(s, s', h, s'.harts[h]);
  }

  lemma FetchLocal(h: nat, x: Hart)
    requires OneOk(h, x) && x.irq.Fetch?
    ensures |x.irq.copy| < 6 ==> OneOk(h, x.(irq := Fetch(x.irq.copy + [x.slot[|x.irq.copy|]])))
    ensures |x.irq.copy| == 6 ==> OneOk(h, x.(irq := Dispatch(x.irq.copy + [x.slot[6]])))
    ensures |x.irq.copy| <= 6
  {
    var n := |x.irq.copy|;
    var c := x.order[|x.handled|].cmd;
    assert n <= 6 && x.irq.copy + [c[n]] == c[..n + 1];
    assert n == 6 ==> c[..7] == c;
  }

  /** The slot is copied word by word; the last word decides the branch. */
  lemma FetchKeeps(s: State, h: nat)
    requires Inv(s) && Handling(s, h) && s.harts[h].irq.Fetch?
    ensures Inv(StepIrq(s, h))
  {
    hide LocksOk, MailOk, StateOk, HistoryOk;
    var s', x := StepIrq(s, h), s.harts[h];
    assert Local(s, h);
    FetchLocal(h, x);
    LocksSame(s, s', h);
    HandlerMoves(s, s', h, s'.harts[h]);
  }

  lemma StartPrintLocal(h: nat, x: Hart)
    requires OneOk(h, x) && x.irq.StartPrint?
    ensures forall swap :: OneOk(h, x.(irq := StartPrint(swap, x.irq.cmd)))
    ensures OneOk(h, x.(irq := StartPrinting(x.irq.cmd)))
    ensures x.base.Parked? || x.base.Idle?
  {
  }

  lemma StartPrintKeeps(s: State, h: nat)
    requires Inv(s) && Handling(s, h) && s.harts[h].irq.StartPrint?
    ensures Inv(StepIrq(s, h))
  {
    hide LocksOk, MailOk, StateOk, HistoryOk;
    var s', x := StepIrq(s, h), s.harts[h];
    assert Local(s, h);
    StartPrintLocal(h, x);
    if PrintLock in s.taken || !x.irq.swap {
      LocksSame(s, s', h);
    } else {
      LocksTaken(s, s', h, PrintLock);
    }
    HandlerMoves(s, s', h, s'.harts[h]);
  }

  lemma StartPrintingLocal(h: nat, x: Hart)
    requires OneOk(h, x) && x.irq.StartPrinting?
    ensures OneOk(h, x.(irq := StartWait(false, x.irq.cmd), user := StartEntry(h, x.irq.cmd)))
    ensures x.base.Parked? || x.base.Idle?
  {
  }

  lemma StartPrintingKeeps(s: State, h: nat)
    requires Inv(s) && Handling(s, h) && s.harts[h].irq.StartPrinting?
    ensures Inv(StepIrq(s, h))
  {
    hide LocksOk, MailOk, StateOk, HistoryOk;
    var s', x := StepIrq(s, h), s.harts[h];
    assert Local(s, h);
    StartPrintingLocal(h, x);
    LocksPosted(s, s', h, PrintLock);
    HandlerMoves(s, s', h, s'.harts[h]);
  }

  lemma StartWaitLocal(h: nat, x: Hart)
    requires OneOk(h, x) && x.irq.StartWait?
    ensures forall swap :: OneOk(h, x.(irq := StartWait(swap, x.irq.cmd)))
    ensures OneOk(h, x.(irq := StartWrite(x.irq.cmd)))
    ensures x.base.Parked? || x.base.Idle?
  {
  }

  lemma StartWaitKeeps(s: State, h: nat)
    requires Inv(s) && Handling(s, h) && s.harts[h].irq.StartWait?
    ensures Inv(StepIrq(s, h))
  {
    hide LocksOk, MailOk, StateOk, HistoryOk;
    var s', x := StepIrq(s, h), s.harts[h];
    assert Local(s, h);
    StartWaitLocal(h, x);
    if HsmLock(h) in s.taken || !x.irq.swap {
      LocksSame(s, s', h);
    } else {
      LocksTaken(s, s', h, HsmLock(h));
    }
    HandlerMoves(s, s', h, s'.harts[h]);
  }

  function StartedHart(x: Hart): Hart
    requires x.irq.StartWrite?
  {
    x.(irq := StartPost(x.irq.cmd), hsm := STARTED, token := NoStart)
  }

  lemma StartWriteLocal(h: nat, x: Hart)
    requires OneOk(h, x) && x.irq.StartWrite?
    ensures OneOk(h, StartedHart(x)) && x.token.InMailbox?
  {
  }

  lemma StartWriteLink(g: nat, b: Base, x: Hart)
    requires x.irq.StartWrite? && LinkOk(g, b, x) && x.token.InMailbox? && !b.Claiming?
    ensures LinkOk(g, b, StartedHart(x))
  {
  }

  lemma NoClaimer(s: State, h: nat, g: nat)
    requires LocksOk(s) && h < |s.harts| && g < |s.harts| && g != h && s.harts[h].irq.StartWrite?
    ensures !(s.harts[g].base.Claiming? && s.harts[g].base.target == h)
  {
    if s.harts[g].base.Claiming? && s.harts[g].base.target == h {
      OneHolder(s, g, h, HsmLock(h));
    }
  }

  /** The handler writes STARTED. */
  lemma StartWriteKeeps(s: State, h: nat)
    requires Inv(s) && Handling(s, h) && s.harts[h].irq.StartWrite?
    ensures Inv(StepIrq(s, h))
  {
    hide LinkOk, LocksOk, MailOk, StateOk, HistoryOk;
    var s', x := StepIrq(s, h), s.harts[h];
    assert Local(s, h);
    StartWriteLocal(h, x);
    LocksSame(s, s', h);
    forall g | 0 <= g < |s.harts| && g != h && Target(s.harts[g].base) == h
      ensures LinkOk(g, s.harts[g].base, s'.harts[h])
    {
      assert Linked(s, g);
      NoClaimer(s, h, g);
      StartWriteLink(g, s.harts[g].base, x);
    }
    HandlerWrites(s, s', h, s'.harts[h]);
  }

  lemma StartPostLocal(h: nat, x: Hart)
    requires OneOk(h, x) && x.irq.StartPost?
    ensures OneOk(h, x.(irq := ClearCommand(x.irq.cmd)))
    ensures x.base.Parked? || x.base.Idle?
  {
  }

  lemma StartPostKeeps(s: State, h: nat)
    requires Inv(s) && Handling(s, h) && s.harts[h].irq.StartPost?
    ensures Inv(StepIrq(s, h))
  {
    hide LocksOk, MailOk, StateOk, HistoryOk;
    var s', x := StepIrq(s, h), s.harts[h];
    assert Local(s, h);
    StartPostLocal(h, x);
    LocksPosted(s, s', h, HsmLock(h));
    HandlerMoves(s, s', h, s'.harts[h]);
  }

  function ClearedHart(x: Hart): Hart
    requires x.irq.ClearCommand?
  {
    x.(irq := ClearMsip(x.irq.cmd), slot := x.slot[0 := 0])
  }

  lemma ClearCommandLocal(h: nat, x: Hart)
    requires OneOk(h, x) && x.irq.ClearCommand?
    ensures OneOk(h, ClearedHart(x)) && x.msip
  {
  }

  lemma ClearCommandLink(g: nat, b: Base, x: Hart)
    requires x.irq.ClearCommand? && LinkOk(g, b, x) && x.msip
    ensures LinkOk(g, b, ClearedHart(x))
  {
  }

  lemma NotWithSender(h: nat, x: Hart)
    requires OneOk(h, x) && (x.irq.ClearCommand? || x.irq.ClearMsip?) && x.irq.cmd[0] == STARTHART
    ensures x.token == NoStart && (x.base.Parked? || x.base.Idle?)
  {
  }

  /** The handler clears the command word of the slot. */
  lemma ClearCommandKeeps(s: State, h: nat)
    requires Inv(s) && Handling(s, h) && s.harts[h].irq.ClearCommand?
    ensures Inv(StepIrq(s, h))
  {
    hide LinkOk, LocksOk, MailOk, StateOk, HistoryOk;
    var s', x := StepIrq(s, h), s.harts[h];
    assert Local(s, h);
    ClearCommandLocal(h, x);
    LocksSame(s, s', h);
    forall g | 0 <= g < |s.harts| && g != h && Target(s.harts[g].base) == h
      ensures LinkOk(g, s.harts[g].base, s'.harts[h])
    {
      assert Linked(s, g);
      ClearCommandLink(g, s.harts[g].base, x);
    }
    HandlerWrites(s, s', h, s'.harts[h]);
  }

  function DoneHart(x: Hart): Hart
    requires x.irq.ClearMsip?
  {
    var x' := x.(irq := Off, msip := false, handled := x.handled + [x.irq.cmd]);
    if x.irq.cmd[0] == STARTHART then x'.(base := Kernel(x.user.a0, x.user.a1), launches := x.launches + [x.user])
    else x'
  }

  lemma DoneLocal(h: nat, x: Hart)
    requires OneOk(h, x) && x.irq.ClearMsip?
    ensures OneOk(h, DoneHart(x)) && Ahead(DoneHart(x)) == Ahead(x)
  {
  }

  lemma DoneLink(h: nat, g: nat, b: Base, x: Hart)
    requires x.irq.ClearMsip? && LinkOk(g, b, x) && MailOk(x)
    ensures LinkOk(g, b, DoneHart(x))
  {
  }

  /** The handler clears msip: the command is consumed, and a started hart leaves for its kernel. */
  lemma ClearMsipKeeps(s: State, h: nat)
    requires Inv(s) && Handling(s, h) && s.harts[h].irq.ClearMsip?
    ensures Inv(StepIrq(s, h))
  {
    hide LinkOk, LocksOk, MailOk, StateOk, HistoryOk;
    var s', x := StepIrq(s, h), s.harts[h];
    assert Local(s, h);
    DoneLocal(h, x);
    if x.irq.cmd[0] == STARTHART {
      NotWithSender(h, x);
    }
    LocksSame(s, s', h);
    forall g | 0 <= g < |s.harts| && g != h && Target(s.harts[g].base) == h
      ensures LinkOk(g, s.harts[g].base, s'.harts[h])
    {
      assert Linked(s, g);
      DoneLink(h, g, s.harts[g].base, x);
    }
    HandlerWrites(s, s', h, s'.harts[h]);
  }

  /** Any step of the handler; the branch for unknown commands is never reached. */
  lemma StepIrqKeeps(s: State, h: nat)
    requires Inv(s) && Handling(s, h)
    ensures Inv(StepIrq(s, h))
  {
    hide StepIrq, MailOk, StateOk, HistoryOk, Linked, HoldsOk, BackLinkOk;
    match s.harts[h].irq {
      case Fetch(_) => FetchKeeps(s, h);
      case StartPrint(_, _) => StartPrintKeeps(s, h);
      case StartPrinting(_) => StartPrintingKeeps(s, h);
      case StartWait(_, _) => StartWaitKeeps(s, h);
      case StartWrite(_) => StartWriteKeeps(s, h);
      case StartPost(_) => StartPostKeeps(s, h);
      case ClearCommand(_) => ClearCommandKeeps(s, h);
      case ClearMsip(_) => ClearMsipKeeps(s, h);
      case Unhandled(_) => NeverUnhandled(s, h); assert false;
    }
  }

  /** The handler never meets a command it does not know. */
  lemma NeverUnhandled(s: State, h: nat)
    requires Inv(s) && h < |s.harts|
    ensures !s.harts[h].irq.Unhandled?
  {
    assert Local(s, h);
  }
}

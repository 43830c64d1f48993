/** What calls and commands bring about when nothing comes in between: a hart that moves alone, finding the
    locks that it needs free, gets through, and the state that it leaves is known to the last field. */
module HartProgress {
  import opened HartModel
  import opened HartInvariant
  import opened HartFrame
  import opened HartSteps
  import opened HartProtocol

  /** The state after n steps of one hart, with no interrupt taken and no new call. */
  function Alone(s: State, h: nat, n: nat): (r: State)
    requires h < |s.harts|
    ensures |r.harts| == |s.harts|
  {
    if n == 0 then s else Step(Alone(s, h, n - 1), h, Run)
  }

  /** Such a run is one of the schedules. */
  lemma {:induction false} AloneIsRun(s: State, h: nat, n: nat)
    requires h < |s.harts|
    ensures Alone(s, h, n) == Exec(s, seq(n, _ => Turn(h, Run)))
  {
    hide Step;
    if n > 0 {
      AloneIsRun(s, h, n - 1);
      assert seq(n, _ => Turn(h, Run))[..n - 1] == seq(n - 1, _ => Turn(h, Run));
    }
  }

  lemma {:induction false} AloneSum(s: State, h: nat, m: nat, n: nat)
    requires h < |s.harts|
    ensures Alone(s, h, m + n) == Alone(Alone(s, h, m), h, n)
  {
    hide Step;
    if n > 0 {
      AloneSum(s, h, m, n - 1);
    }
  }

  lemma AloneOne(s: State, h: nat)
    requires h < |s.harts|
    ensures Alone(s, h, 1) == Step(s, h, Run)
  {
    assert Alone(s, h, 0) == s;
  }

  // --- the handler ----------------------------------------------------------------------------------

  lemma FetchOne(s: State, h: nat, n: nat)
    requires h < |s.harts| && n < 7
    ensures var slot := s.harts[h].slot;
            Step(SetIrq(s, h, Fetch(slot[..n])), h, Run)
            == SetIrq(s, h, if n < 6 then Fetch(slot[..n + 1]) else Dispatch(slot))
  {
    hide Dispatch;
    var slot := s.harts[h].slot;
    assert slot[..n + 1] == slot[..n] + [slot[n]] && slot[..7] == slot;
    assert s.harts[h := s.harts[h].(irq := Fetch(slot[..n]))][h] == s.harts[h].(irq := Fetch(slot[..n]));
  }

  lemma {:induction false} Fetches(s: State, h: nat, n: nat)
    requires h < |s.harts| && n <= 6
    ensures Alone(SetIrq(s, h, Fetch([])), h, n) == SetIrq(s, h, Fetch(s.harts[h].slot[..n]))
  {
    hide Step, SetIrq;
    if n > 0 {
      Fetches(s, h, n - 1);
      FetchOne(s, h, n - 1);
    } else {
      assert s.harts[h].slot[..0] == [];
    }
  }

  /** Seven steps copy the slot. */
  lemma FetchesAll(s: State, h: nat)
    requires h < |s.harts|
    ensures Alone(SetIrq(s, h, Fetch([])), h, 7) == SetIrq(s, h, Dispatch(s.harts[h].slot))
  {
    hide Step, Dispatch, SetIrq;
    Fetches(s, h, 6);
    FetchOne(s, h, 6);
  }

  /** The two writes at the end of the handler. */
  lemma Clears(s: State, h: nat, c: Command)
    requires h < |s.harts| && c[0] != STARTHART
    ensures var x := s.harts[h];
            Alone(SetIrq(s, h, ClearCommand(c)), h, 2)
            == SetHart(s, h, x.(irq := Off, msip := false, slot := x.slot[0 := 0], handled := x.handled + [c]))
  {
    var x, s0 := s.harts[h], SetIrq(s, h, ClearCommand(c));
    var s1 := SetHart(s, h, x.(irq := ClearMsip(c), slot := x.slot[0 := 0]));
    AloneOne(s0, h);
    assert Step(s0, h, Run) == s1;
    AloneSum(s0, h, 1, 1);
    AloneOne(s1, h);
  }

  /** A fence or an S-mode software interrupt that is in the mailbox is handled by nine steps of its hart
      from the interrupt on, and nothing else changes. */
  lemma FenceIsHandled(s: State, h: nat)
    requires h < |s.harts| && s.harts[h].irq.Off? && s.harts[h].msip && !s.harts[h].base.Switching?
    requires s.harts[h].slot[0] in {17, 18, 19, 20}
    ensures var x := s.harts[h];
            Alone(Step(s, h, Interrupt), h, 9)
            == s.(harts := s.harts[h := x.(msip := false, slot := x.slot[0 := 0], handled := x.handled + [x.slot])])
  {
    var x := s.harts[h];
    assert Step(s, h, Interrupt) == SetIrq(s, h, Fetch([])) && Dispatch(x.slot) == ClearCommand(x.slot);
    hide Step, Dispatch, Alone;
    FetchesAll(s, h);
    AloneSum(SetIrq(s, h, Fetch([])), h, 7, 2);
    Clears(s, h, x.slot);
  }

  /** The steps of the STARTHART handler while the print lock is free. */
  lemma StartPrints(s: State, h: nat, c: Command)
    requires h < |s.harts| && PrintLock !in s.taken && PrintLock !in s.owner
    ensures Alone(SetIrq(s, h, StartPrint(false, c)), h, 3)
            == SetHart(s, h, s.harts[h].(irq := StartWait(false, c), user := Entry(c[2], h, c[3])))
  {
    var s0, s1 := SetIrq(s, h, StartPrint(false, c)), SetIrq(s, h, StartPrint(true, c));
    var s2 := Take(SetIrq(s, h, StartPrinting(c)), h, PrintLock);
    assert Step(s0, h, Run) == s1 && Step(s1, h, Run) == s2;
    assert s.taken + {PrintLock} - {PrintLock} == s.taken && s.owner[PrintLock := h] - {PrintLock} == s.owner;
    ThreeSteps(s0, s1, s2, h);
  }

  lemma ThreeSteps(s0: State, s1: State, s2: State, h: nat)
    requires h < |s0.harts| && Step(s0, h, Run) == s1 && Step(s1, h, Run) == s2
    ensures Alone(s0, h, 3) == Step(s2, h, Run)
  {
    hide Step;
    AloneOne(s0, h);
    assert Alone(s0, h, 2) == s2;
  }

  /** And while its own state word is free: STARTED is written. */
  lemma StartWrites(s: State, h: nat, c: Command)
    requires h < |s.harts| && HsmLock(h) !in s.taken && HsmLock(h) !in s.owner
    ensures Alone(SetIrq(s, h, StartWait(false, c)), h, 4)
            == SetHart(s, h, s.harts[h].(irq := ClearCommand(c), hsm := STARTED, token := NoStart))
  {
    var l := HsmLock(h);
    var s0, s1 := SetIrq(s, h, StartWait(false, c)), SetIrq(s, h, StartWait(true, c));
    var s2 := Take(SetIrq(s, h, StartWrite(c)), h, l);
    var s3 := Take(SetHart(s, h, s.harts[h].(irq := StartPost(c), hsm := STARTED, token := NoStart)), h, l);
    assert Step(s0, h, Run) == s1 && Step(s1, h, Run) == s2 && Step(s2, h, Run) == s3;
    assert s.taken + {l} - {l} == s.taken && s.owner[l := h] - {l} == s.owner;
    ThreeSteps(s0, s1, s2, h);
    assert Alone(s0, h, 4) == Step(s3, h, Run);
  }

  lemma Leaves(s: State, h: nat, c: Command)
    requires h < |s.harts| && c[0] == STARTHART
    ensures var x := s.harts[h];
            Alone(SetIrq(s, h, ClearCommand(c)), h, 2)
            == Write(SetHart(s, h, x.(irq := Off, msip := false, slot := x.slot[0 := 0], handled := x.handled + [c],
                                      base := Kernel(x.user.a0, x.user.a1), launches := x.launches + [x.user])),
                     h, DiaryOf(s, h).(call := NoCall))
  {
    var x, s0 := s.harts[h], SetIrq(s, h, ClearCommand(c));
    var s1 := SetHart(s, h, x.(irq := ClearMsip(c), slot := x.slot[0 := 0]));
    AloneOne(s0, h);
    assert Step(s0, h, Run) == s1;
    AloneSum(s0, h, 1, 1);
    AloneOne(s1, h);
  }

  /** The hart when STARTED is written and its state word is free again. */
  function StartedHart(h: nat, x: Hart): Hart {
    x.(user := Entry(x.slot[2], h, x.slot[3]), hsm := STARTED, token := NoStart)
  }

  lemma Twice(s: State, h: nat, x: Hart, y: Hart)
    requires h < |s.harts|
    ensures |SetHart(s, h, x).harts| == |s.harts| && SetHart(s, h, x).harts[h] == x
    ensures SetHart(SetHart(s, h, x), h, y) == SetHart(s, h, y)
  {
  }

  lemma StartWaits(s: State, h: nat)
    requires h < |s.harts| && s.harts[h].slot[0] == 14 && PrintLock !in s.taken && PrintLock !in s.owner
    ensures var x := s.harts[h];
            Alone(SetIrq(s, h, Fetch([])), h, 10)
            == SetHart(s, h, x.(irq := StartWait(false, x.slot), user := Entry(x.slot[2], h, x.slot[3])))
  {
    var c := s.harts[h].slot;
    assert Dispatch(c) == StartPrint(false, c);
    hide Step, Dispatch, Alone, SetHart, SetIrq;
    FetchesAll(s, h);
    AloneSum(SetIrq(s, h, Fetch([])), h, 7, 3);
    StartPrints(s, h, c);
  }

  lemma StartReaches(s: State, h: nat)
    requires h < |s.harts| && s.harts[h].slot[0] == 14 && s.owner.Keys == s.taken
    requires PrintLock !in s.taken && HsmLock(h) !in s.taken
    ensures var x := s.harts[h];
            Alone(SetIrq(s, h, Fetch([])), h, 14)
            == SetIrq(SetHart(s, h, StartedHart(h, x)), h, ClearCommand(x.slot))
  {
    var x, c := s.harts[h], s.harts[h].slot;
    var x1, x2 := x.(user := Entry(c[2], h, c[3])), StartedHart(h, x);
    hide Step, Alone, SetHart, StartedHart;
    StartWaits(s, h);
    AloneSum(SetIrq(s, h, Fetch([])), h, 10, 4);
    Twice(s, h, x1, x1.(irq := StartWait(false, c)));
    Locked(s, h, x1);
    StartWrites(SetHart(s, h, x1), h, c);
    Twice(s, h, x1, x2.(irq := ClearCommand(c)));
    Twice(s, h, x2, x2.(irq := ClearCommand(c)));
    StartedIs(h, x);
  }

  lemma StartedIs(h: nat, x: Hart)
    ensures StartedHart(h, x) == x.(user := Entry(x.slot[2], h, x.slot[3]), hsm := STARTED, token := NoStart)
  {
  }

  lemma Locked(s: State, h: nat, x: Hart)
    requires h < |s.harts|
    ensures SetHart(s, h, x).taken == s.taken && SetHart(s, h, x).owner == s.owner && SetHart(s, h, x).diary == s.diary
  {
  }

  /** A STARTHART in the mailbox, with the two locks free: sixteen steps after the interrupt the hart is
      STARTED and in its kernel, at the address and with the argument of the command. */
  lemma StartIsHandled(s: State, h: nat)
    requires h < |s.harts| && s.harts[h].irq.Off? && s.harts[h].msip && !s.harts[h].base.Switching?
    requires s.harts[h].slot[0] == 14 && s.owner.Keys == s.taken
    requires PrintLock !in s.taken && HsmLock(h) !in s.taken
    ensures var x := s.harts[h];
            var e := Entry(x.slot[2], h, x.slot[3]);
            Alone(Step(s, h, Interrupt), h, 16)
            == Write(SetHart(s, h, x.(base := Kernel(h, x.slot[3]), user := e, launches := x.launches + [e],
                                      hsm := STARTED, token := NoStart,
                                      msip := false, slot := x.slot[0 := 0], handled := x.handled + [x.slot])),
                     h, DiaryOf(s, h).(call := NoCall))
  {
    var x := s.harts[h];
    assert Step(s, h, Interrupt) == SetIrq(s, h, Fetch([]));
    hide Step, Dispatch, Alone, SetHart, Write;
    StartReaches(s, h);
    AloneSum(SetIrq(s, h, Fetch([])), h, 14, 2);
    var y := StartedHart(h, x);
    Leaves(SetHart(s, h, y), h, x.slot);
    Locked(s, h, y);
    var z := y.(irq := Off, msip := false, slot := x.slot[0 := 0], handled := x.handled + [x.slot],
                base := Kernel(h, x.slot[3]), launches := x.launches + [y.user]);
    Twice(s, h, y, z);
  }

  // --- sending --------------------------------------------------------------------------------------

  /** Hart h somewhere in a send, with the given slot at its target. */
  function Mid(s: State, h: nat, t: nat, b: Base, slot: Command): State
    requires h < |s.harts| && t < |s.harts|
  {
    s.(harts := s.harts[h := s.harts[h].(base := b)][t := s.harts[t].(slot := slot)])
  }

  /** The first n words are copied. */
  function Filled(slot: Command, c: Command, n: nat): (r: Command)
    requires n <= 7
    ensures |r| == 7
  {
    c[..n] + slot[n..]
  }

  lemma CopyOne(s: State, h: nat, m: Message, rest: seq<Message>, n: nat)
    requires h < |s.harts| && m.target < |s.harts| && h != m.target && s.harts[h].irq.Off? && n < 7
    ensures var slot := s.harts[m.target].slot;
            Step(Mid(s, h, m.target, Copying(n, m, rest), Filled(slot, m.cmd, n)), h, Run)
            == Mid(s, h, m.target, Copying(n + 1, m, rest), Filled(slot, m.cmd, n + 1))
  {
    var t, slot := m.target, s.harts[m.target].slot;
    var s0 := Mid(s, h, t, Copying(n, m, rest), Filled(slot, m.cmd, n));
    assert Filled(slot, m.cmd, n)[n := m.cmd[n]] == Filled(slot, m.cmd, n + 1);
    assert Step(s0, h, Run) == StepCopy(s0, h);
  }

  lemma {:induction false} Copies(s: State, h: nat, m: Message, rest: seq<Message>, n: nat)
    requires h < |s.harts| && m.target < |s.harts| && h != m.target && s.harts[h].irq.Off? && n <= 7
    ensures var slot := s.harts[m.target].slot;
            Alone(Mid(s, h, m.target, Copying(0, m, rest), slot), h, n)
            == Mid(s, h, m.target, Copying(n, m, rest), Filled(slot, m.cmd, n))
  {
    hide Step, Mid;
    if n > 0 {
      Copies(s, h, m, rest, n - 1);
      CopyOne(s, h, m, rest, n - 1);
    } else {
      assert Filled(s.harts[m.target].slot, m.cmd, 0) == s.harts[m.target].slot;
    }
  }

  /** The send of one message, as it leaves its hart at point b. */
  function Delivered(s: State, h: nat, m: Message, b: Base): State
    requires h < |s.harts| && m.target < |s.harts|
  {
    var x := s.harts[m.target];
    var s' := SetHart(SetBase(s, h, b), m.target,
                      x.(order := x.order + [Sent(h, m.cmd)], slot := m.cmd, msip := true,
                         token := if m.starts then InMailbox else x.token));
    if m.starts then s' else Write(s', h, DiaryOf(s, h).(ordered := DiaryOf(s, h).ordered + [m]))
  }

  lemma TakesLock(s: State, h: nat, m: Message, rest: seq<Message>)
    requires h < |s.harts| && m.target < |s.harts| && h != m.target && s.harts[h].irq.Off?
    requires QueLock(m.target) !in s.taken && !s.harts[m.target].msip
    ensures |MailboxTaken(s, h, m, rest).harts| == |s.harts|
    ensures Alone(SetBase(s, h, Acquire(false, ToSend(m, rest))), h, 3)
            == Mid(MailboxTaken(s, h, m, rest), h, m.target, Copying(0, m, rest), s.harts[m.target].slot)
  {
    hide Mid, MailboxTaken;
    var s0 := SetBase(s, h, Acquire(false, ToSend(m, rest)));
    var s1 := SetBase(s, h, Acquire(true, ToSend(m, rest)));
    var s2 := MailboxTaken(s, h, m, rest);
    assert Step(s0, h, Run) == s1;
    MailboxStep(s, h, m, rest);
    PollStep(s, h, m, rest);
    hide Step, SetBase;
    ThreeSteps(s0, s1, s2, h);
  }

  lemma MailboxStep(s: State, h: nat, m: Message, rest: seq<Message>)
    requires h < |s.harts| && m.target < |s.harts| && s.harts[h].irq.Off? && QueLock(m.target) !in s.taken
    ensures Step(SetBase(s, h, Acquire(true, ToSend(m, rest))), h, Run) == MailboxTaken(s, h, m, rest)
  {
    var s1 := SetBase(s, h, Acquire(true, ToSend(m, rest)));
    assert SetBase(s1, h, Poll(m, rest)) == SetBase(s, h, Poll(m, rest));
    assert Step(s1, h, Run) == StepAcquire(s1, h);
    hide LogOrder;
  }

  lemma PollStep(s: State, h: nat, m: Message, rest: seq<Message>)
    requires h < |s.harts| && m.target < |s.harts| && h != m.target && s.harts[h].irq.Off? && !s.harts[m.target].msip
    ensures |MailboxTaken(s, h, m, rest).harts| == |s.harts|
    ensures Step(MailboxTaken(s, h, m, rest), h, Run)
            == Mid(MailboxTaken(s, h, m, rest), h, m.target, Copying(0, m, rest), s.harts[m.target].slot)
  {
    var u := MailboxTaken(s, h, m, rest);
    assert Step(u, h, Run) == SetBase(u, h, Copying(0, m, rest));
  }

  /** The mailbox in which the command is complete. */
  function Full(s: State, h: nat, m: Message, b: Base): State
    requires h < |s.harts| && m.target < |s.harts|
  {
    var s', l := Delivered(s, h, m, b), QueLock(m.target);
    s'.(taken := s.taken + {l}, owner := s.owner[l := h])
  }

  lemma KickStep(s: State, h: nat, m: Message, rest: seq<Message>)
    requires h < |s.harts| && m.target < |s.harts| && h != m.target && s.harts[h].irq.Off? && m.kind == Que
    ensures |MailboxTaken(s, h, m, rest).harts| == |s.harts|
    ensures Step(Mid(MailboxTaken(s, h, m, rest), h, m.target, Kick(m, rest), m.cmd), h, Run)
            == Full(s, h, m, Release(m, [], rest))
  {
    var t, u := m.target, MailboxTaken(s, h, m, rest);
    var s1 := Mid(u, h, t, Kick(m, rest), m.cmd);
    assert Step(s1, h, Run) == StepKick(s1, h);
  }

  lemma ReleaseStep(s: State, h: nat, m: Message, rest: seq<Message>)
    requires h < |s.harts| && m.target < |s.harts| && h != m.target && s.harts[h].irq.Off?
    requires QueLock(m.target) !in s.taken && QueLock(m.target) !in s.owner
    ensures |Full(s, h, m, Release(m, [], rest)).harts| == |s.harts|
    ensures Step(Full(s, h, m, Release(m, [], rest)), h, Run) == Delivered(s, h, m, SendAll(rest))
  {
    hide SendAll;
    var l, s2 := QueLock(m.target), Full(s, h, m, Release(m, [], rest));
    assert s.taken + {l} - {l} == s.taken && s.owner[l := h] - {l} == s.owner;
    assert Step(s2, h, Run) == SetBase(Post(s2, l), h, SendAll(rest));
  }

  lemma Delivers(s: State, h: nat, m: Message, rest: seq<Message>)
    requires h < |s.harts| && m.target < |s.harts| && h != m.target && s.harts[h].irq.Off? && m.kind == Que
    requires QueLock(m.target) !in s.taken && QueLock(m.target) !in s.owner
    ensures |MailboxTaken(s, h, m, rest).harts| == |s.harts|
    ensures Alone(Mid(MailboxTaken(s, h, m, rest), h, m.target, Copying(7, m, rest), m.cmd), h, 3)
            == Delivered(s, h, m, SendAll(rest))
  {
    MailboxSame(s, h, m, rest);
    hide MailboxTaken, Full, Delivered, SendAll;
    var t, u := m.target, MailboxTaken(s, h, m, rest);
    var s0, s1 := Mid(u, h, t, Copying(7, m, rest), m.cmd), Mid(u, h, t, Kick(m, rest), m.cmd);
    assert Step(s0, h, Run) == s1;
    KickStep(s, h, m, rest);
    ReleaseStep(s, h, m, rest);
    hide Step, Mid;
    ThreeSteps(s0, s1, Full(s, h, m, Release(m, [], rest)), h);
  }

  /** A send that finds the mailbox free takes thirteen steps. */
  lemma SendIsDelivered(s: State, h: nat, m: Message, rest: seq<Message>)
    requires h < |s.harts| && m.target < |s.harts| && h != m.target && s.harts[h].irq.Off? && m.kind == Que
    requires QueLock(m.target) !in s.taken && s.owner.Keys == s.taken && !s.harts[m.target].msip
    ensures Alone(SetBase(s, h, Acquire(false, ToSend(m, rest))), h, 13) == Delivered(s, h, m, SendAll(rest))
  {
    hide Step, Alone, Mid, MailboxTaken, SendAll, SetBase, Delivered, Full;
    var s0, u := SetBase(s, h, Acquire(false, ToSend(m, rest))), MailboxTaken(s, h, m, rest);
    TakesLock(s, h, m, rest);
    MailboxSame(s, h, m, rest);
    AloneSum(s0, h, 3, 7);
    Copies(u, h, m, rest, 7);
    assert Filled(s.harts[m.target].slot, m.cmd, 7) == m.cmd;
    AloneSum(s0, h, 10, 3);
    Delivers(s, h, m, rest);
  }

  lemma MailboxSame(s: State, h: nat, m: Message, rest: seq<Message>)
    requires h < |s.harts| && m.target < |s.harts| && h != m.target
    ensures var u := MailboxTaken(s, h, m, rest);
            |u.harts| == |s.harts| && u.harts[m.target].slot == s.harts[m.target].slot
            && u.harts[h].irq == s.harts[h].irq
  {
  }

  // --- calls that send ------------------------------------------------------------------------------

  /** Messages to different harts whose mailboxes are free. */
  predicate Clear(s: State, h: nat, msgs: seq<Message>) {
    && (forall k | 0 <= k < |msgs| ::
          && msgs[k].target < |s.harts| && msgs[k].target != h && msgs[k].kind == Que && !msgs[k].starts
          && QueLock(msgs[k].target) !in s.taken && !s.harts[msgs[k].target].msip)
    && (forall j, k | 0 <= j < k < |msgs| :: msgs[j].target != msgs[k].target)
  }

  /** What the mailbox of a target is after the broadcast. */
  predicate Got(x: Hart, x': Hart, h: nat, c: Command) {
    x' == x.(order := x.order + [Sent(h, c)], slot := c, msip := true)
  }

  predicate IsTarget(msgs: seq<Message>, g: nat) {
    exists k :: 0 <= k < |msgs| && msgs[k].target == g
  }

  /** Every target has its command in its mailbox, no other hart has changed, and the sender is back. */
  predicate Broadcast(s: State, r: State, h: nat, msgs: seq<Message>)
    requires h < |s.harts|
  {
    && |r.harts| == |s.harts| && r.taken == s.taken && r.owner == s.owner
    && r.harts[h] == s.harts[h].(base := Kernel(0, 0))
    && (forall k | 0 <= k < |msgs| :: msgs[k].target < |s.harts|
          && Got(s.harts[msgs[k].target], r.harts[msgs[k].target], h, msgs[k].cmd))
    && (forall g | 0 <= g < |s.harts| && g != h && !IsTarget(msgs, g) :: r.harts[g] == s.harts[g])
    && DiaryOf(r, h) == DiaryOf(s, h).(ordered := DiaryOf(s, h).ordered + msgs)
  }

  lemma {:induction false} Broadcasts(s: State, h: nat, msgs: seq<Message>)
    requires h < |s.harts| && s.harts[h].irq.Off? && s.harts[h].base == SendAll(msgs)
    requires s.owner.Keys == s.taken && Clear(s, h, msgs)
    ensures Broadcast(s, Alone(s, h, 13 * |msgs|), h, msgs)
    decreases |msgs|
  {
    hide Alone, Delivered, Broadcast, Clear;
    SetSame(s, h);
    if msgs == [] {
      NoBroadcast(s, h);
    } else {
      var m, rest := msgs[0], msgs[1..];
      ClearFirst(s, h, msgs);
      var u := Delivered(s, h, m, SendAll(rest));
      SendIsDelivered(s, h, m, rest);
      AloneSum(s, h, 13, 13 * |rest|);
      Broadcasts(u, h, rest);
      BroadcastMore(s, u, Alone(u, h, 13 * |rest|), h, msgs);
    }
  }

  lemma NoBroadcast(s: State, h: nat)
    requires h < |s.harts| && s.harts[h].base == Kernel(0, 0)
    ensures Broadcast(s, Alone(s, h, 0), h, [])
  {
    assert DiaryOf(s, h).ordered + [] == DiaryOf(s, h).ordered;
  }

  lemma ClearFirst(s: State, h: nat, msgs: seq<Message>)
    requires h < |s.harts| && msgs != [] && Clear(s, h, msgs)
    ensures var m, rest := msgs[0], msgs[1..];
            && m.target < |s.harts| && m.target != h && m.kind == Que && QueLock(m.target) !in s.taken
            && !s.harts[m.target].msip && !m.starts
            && var u := Delivered(s, h, m, SendAll(rest));
            && |u.harts| == |s.harts| && u.harts[h] == s.harts[h].(base := SendAll(rest))
            && u.taken == s.taken && u.owner == s.owner && Clear(u, h, rest)
  {
    hide SendAll;
    var rest, u := msgs[1..], Delivered(s, h, msgs[0], SendAll(msgs[1..]));
    assert msgs[0].target < |s.harts|;
    forall k | 0 <= k < |rest| ensures rest[k] == msgs[k + 1] && rest[k].target != msgs[0].target {
    }
  }

  lemma BroadcastMore(s: State, u: State, r: State, h: nat, msgs: seq<Message>)
    requires h < |s.harts| && msgs != [] && Clear(s, h, msgs) && msgs[0].target < |s.harts|
    requires u == Delivered(s, h, msgs[0], SendAll(msgs[1..])) && Broadcast(u, r, h, msgs[1..])
    ensures Broadcast(s, r, h, msgs)
  {
    hide SendAll;
    var m, rest := msgs[0], msgs[1..];
    assert DiaryOf(s, h).ordered + [m] + rest == DiaryOf(s, h).ordered + msgs;
    assert !IsTarget(rest, m.target);
    forall k | 0 <= k < |msgs|
      ensures msgs[k].target < |s.harts| && Got(s.harts[msgs[k].target], r.harts[msgs[k].target], h, msgs[k].cmd)
    {
      if k > 0 {
        assert rest[k - 1] == msgs[k] && u.harts[msgs[k].target] == s.harts[msgs[k].target];
      }
    }
    forall g | 0 <= g < |s.harts| && g != h && !IsTarget(msgs, g) ensures r.harts[g] == s.harts[g] {
      assert msgs[0].target != g && u.harts[g] == s.harts[g];
      if IsTarget(rest, g) {
        TargetsMore(msgs, g);
      }
    }
  }

  lemma TargetsMore(msgs: seq<Message>, g: nat)
    requires msgs != [] && IsTarget(msgs[1..], g)
    ensures IsTarget(msgs, g)
  {
    var k :| 0 <= k < |msgs[1..]| && msgs[1..][k].target == g;
    assert msgs[k + 1].target == g;
  }

  lemma SetSame(s: State, h: nat)
    requires h < |s.harts|
    ensures SetBase(s, h, s.harts[h].base) == s
  {
    assert s.harts[h := s.harts[h]] == s.harts;
  }

  /** A call that sends to several harts, alone and with all their mailboxes free: every one of them gets
      its command. */
  lemma CallIsDelivered(s: State, h: nat, msgs: seq<Message>)
    requires h < |s.harts| && s.harts[h].irq.Off? && s.harts[h].base.Kernel?
    requires s.owner.Keys == s.taken && Clear(s, h, msgs)
    requires forall m <- msgs :: s.first <= m.target && m.cmd[0] in {17, 18, 19, 20}
    ensures var r := Alone(Step(s, h, CallSend(msgs)), h, 13 * |msgs|);
            && r.harts[h] == s.harts[h].(base := Kernel(0, 0)) && r.taken == s.taken
            && (forall k | 0 <= k < |msgs| ::
                  var x := s.harts[msgs[k].target];
                  r.harts[msgs[k].target]
                  == x.(order := x.order + [Sent(h, msgs[k].cmd)], slot := msgs[k].cmd, msip := true))
            && (forall g | 0 <= g < |s.harts| && g != h && (forall k | 0 <= k < |msgs| :: msgs[k].target != g) ::
                  r.harts[g] == s.harts[g])
  {
    hide Alone, SendAll;
    assert AllSendable(s, h, msgs);
    var u := Step(s, h, CallSend(msgs));
    assert u.harts == s.harts[h := s.harts[h].(base := SendAll(msgs))];
    assert Clear(u, h, msgs);
    Broadcasts(u, h, msgs);
  }

  // --- sbi_hart_start -------------------------------------------------------------------------------

  /** The state word is claimed. */
  function ClaimedBy(s: State, h: nat, t: nat, addr: nat, arg: nat, b: Base): State
    requires h < |s.harts| && t < |s.harts|
  {
    var x := s.harts[t];
    SetHart(SetBase(s, h, b), t,
            x.(hsm := START_PENDING, token := WithSender(h), wins := x.wins + [Win(h, addr, arg)]))
  }

  lemma ReadsState(s: State, h: nat, t: nat, addr: nat, arg: nat)
    requires h < |s.harts| && t < |s.harts| && h != t && s.harts[h].irq.Off?
    requires HsmLock(t) !in s.taken && (s.harts[t].hsm == STOPPED || s.harts[t].hsm == SUSPENDED)
    ensures Alone(SetBase(s, h, Acquire(false, ToStart(t, addr, arg))), h, 3)
            == Take(SetBase(s, h, Claiming(t, addr, arg)), h, HsmLock(t))
  {
    var g := ToStart(t, addr, arg);
    var s0, s1 := SetBase(s, h, Acquire(false, g)), SetBase(s, h, Acquire(true, g));
    var s2 := Take(SetBase(s, h, Reading(t, addr, arg)), h, HsmLock(t));
    assert Step(s0, h, Run) == s1;
    assert Step(s1, h, Run) == s2;
    ThreeSteps(s0, s1, s2, h);
  }

  lemma Claims(s: State, h: nat, t: nat, addr: nat, arg: nat)
    requires h < |s.harts| && t < |s.harts| && h != t && s.harts[h].irq.Off?
    requires HsmLock(t) !in s.taken && HsmLock(t) !in s.owner
    ensures Alone(Take(SetBase(s, h, Claiming(t, addr, arg)), h, HsmLock(t)), h, 2)
            == ClaimedBy(s, h, t, addr, arg,
                         Acquire(false, ToSend(Message(Que, t, [14, t, addr, arg, 0, 0, 0], true), [])))
  {
    var l := HsmLock(t);
    var s0 := Take(SetBase(s, h, Claiming(t, addr, arg)), h, l);
    var s1 := Take(ClaimedBy(s, h, t, addr, arg, Claimed(t, addr, arg)), h, l);
    AloneOne(s0, h);
    assert Step(s0, h, Run) == StepClaim(s0, h) == s1;
    AloneSum(s0, h, 1, 1);
    AloneOne(s1, h);
    assert s.taken + {l} - {l} == s.taken && s.owner[l := h] - {l} == s.owner;
  }

  lemma StartCalled(s: State, h: nat, t: nat, addr: nat, arg: nat)
    requires h < |s.harts| && t < |s.harts| && h != t && s.first <= t
    requires addr % 4 == 0 && 0x8000_0000 <= addr < 0x8800_0000
    requires s.harts[h].irq.Off? && s.harts[h].base.Kernel?
    ensures Step(s, h, CallStart(t, addr, arg))
            == SetBase(Write(s, h, DiaryOf(s, h).(call := InCall(CallStart(t, addr, arg)))), h,
                       Acquire(false, ToStart(t, addr, arg)))
  {
  }

  /** A call that starts a resting hart, alone and with the locks and the mailbox free: after eighteen steps
      it has returned success, and the hart has its STARTHART, with that address and argument, and is
      START_PENDING. */
  lemma StartIsGranted(s: State, h: nat, t: nat, addr: nat, arg: nat)
    requires h < |s.harts| && t < |s.harts| && h != t && s.first <= t
    requires addr % 4 == 0 && 0x8000_0000 <= addr < 0x8800_0000
    requires s.harts[h].irq.Off? && s.harts[h].base.Kernel? && s.owner.Keys == s.taken
    requires HsmLock(t) !in s.taken && QueLock(t) !in s.taken && !s.harts[t].msip
    requires s.harts[t].hsm == STOPPED || s.harts[t].hsm == SUSPENDED
    ensures var r, x, c := Alone(Step(s, h, CallStart(t, addr, arg)), h, 18), s.harts[t], [14, t, addr, arg, 0, 0, 0];
            && r.harts == s.harts[h := s.harts[h].(base := Kernel(0, 0))]
                                 [t := x.(hsm := START_PENDING, msip := true, slot := c, token := InMailbox,
                                          order := x.order + [Sent(h, c)], wins := x.wins + [Win(h, addr, arg)])]
            && r.taken == s.taken && r.owner == s.owner && r.first == s.first
  {
    hide Alone, SendAll, Step, SetBase, SetHart, ClaimedBy, Take;
    var u := Write(s, h, DiaryOf(s, h).(call := InCall(CallStart(t, addr, arg))));
    var g := ToStart(t, addr, arg);
    var m := Message(Que, t, [14, t, addr, arg, 0, 0, 0], true);
    StartCalled(s, h, t, addr, arg);
    ReadsState(u, h, t, addr, arg);
    AloneSum(SetBase(u, h, Acquire(false, g)), h, 3, 2);
    Claims(u, h, t, addr, arg);
    AloneSum(SetBase(u, h, Acquire(false, g)), h, 5, 13);
    StartIsSent(u, h, t, addr, arg, m);
  }

  lemma StartIsSent(s: State, h: nat, t: nat, addr: nat, arg: nat, m: Message)
    requires h < |s.harts| && t < |s.harts| && h != t && s.harts[h].irq.Off? && s.owner.Keys == s.taken
    requires m == Message(Que, t, [14, t, addr, arg, 0, 0, 0], true) && QueLock(t) !in s.taken && !s.harts[t].msip
    ensures var x := s.harts[t];
            var r := Alone(ClaimedBy(s, h, t, addr, arg, Acquire(false, ToSend(m, []))), h, 13);
            && r.harts == s.harts[h := s.harts[h].(base := Kernel(0, 0))]
                                 [t := x.(hsm := START_PENDING, msip := true, slot := m.cmd, token := InMailbox,
                                          order := x.order + [Sent(h, m.cmd)], wins := x.wins + [Win(h, addr, arg)])]
            && r.taken == s.taken && r.owner == s.owner && r.first == s.first
  {
    var u := ClaimedBy(s, h, t, addr, arg, s.harts[h].base);
    var b := Acquire(false, ToSend(m, []));
    assert ClaimedBy(s, h, t, addr, arg, b) == SetBase(u, h, b);
    hide Alone, Step;
    SendIsDelivered(u, h, m, []);
  }

  // --- calls that print first -----------------------------------------------------------------------

  /** printm: the lock is taken and posted. */
  lemma Prints(s: State, h: nat, a: After)
    requires h < |s.harts| && s.harts[h].irq.Off? && PrintLock !in s.taken && PrintLock !in s.owner
    ensures Alone(SetBase(s, h, Acquire(false, ToPrint(a))), h, 3) == SetBase(s, h, AfterPrint(s, h, a))
  {
    hide AfterPrint;
    var s0, s1 := SetBase(s, h, Acquire(false, ToPrint(a))), SetBase(s, h, Acquire(true, ToPrint(a)));
    var s2 := Take(SetBase(s, h, Printing(a)), h, PrintLock);
    assert Step(s0, h, Run) == s1;
    assert Step(s1, h, Run) == s2;
    assert s.taken + {PrintLock} - {PrintLock} == s.taken && s.owner[PrintLock := h] - {PrintLock} == s.owner;
    ThreeSteps(s0, s1, s2, h);
    SameAfter(s, s2, h, a);
  }

  lemma SameAfter(s: State, s': State, h: nat, a: After)
    requires s'.first == s.first && |s'.harts| == |s.harts|
    ensures AfterPrint(s', h, a) == AfterPrint(s, h, a)
  {
  }

  /** The state word is written and posted, and the hart comes to rest. */
  lemma Parks(s: State, h: nat, st: HsmState)
    requires h < |s.harts| && s.harts[h].irq.Off? && HsmLock(h) !in s.taken && HsmLock(h) !in s.owner
    ensures var x := s.harts[h];
            Alone(SetBase(s, h, Acquire(false, ToPark(st))), h, 6)
            == SetHart(s, h, x.(base := Idle, hsm := st, parks := x.parks + 1))
  {
    hide Step, Alone;
    var x := s.harts[h];
    ParkLocks(s, h, st);
    var s4 := SetHart(s, h, x.(base := Parked, hsm := st, parks := x.parks + 1));
    AloneSum(SetBase(s, h, Acquire(false, ToPark(st))), h, 4, 2);
    ParkPosts(s, h, st);
    Idles(s4, h);
  }

  lemma ParkLocks(s: State, h: nat, st: HsmState)
    requires h < |s.harts| && s.harts[h].irq.Off? && HsmLock(h) !in s.taken
    ensures Alone(SetBase(s, h, Acquire(false, ToPark(st))), h, 2) == Take(SetBase(s, h, ParkWrite(st)), h, HsmLock(h))
  {
    var s0, s1 := SetBase(s, h, Acquire(false, ToPark(st))), SetBase(s, h, Acquire(true, ToPark(st)));
    assert Step(s0, h, Run) == s1;
    assert Step(s1, h, Run) == Take(SetBase(s, h, ParkWrite(st)), h, HsmLock(h));
    AloneOne(s0, h);
    AloneSum(s0, h, 1, 1);
    AloneOne(s1, h);
  }

  lemma ParkSteps(s: State, h: nat, st: HsmState)
    requires h < |s.harts| && s.harts[h].irq.Off? && HsmLock(h) !in s.taken && HsmLock(h) !in s.owner
    ensures var x := s.harts[h];
            var written := Take(SetHart(s, h, x.(base := ParkPost, hsm := st, parks := x.parks + 1)), h, HsmLock(h));
            && Step(Take(SetBase(s, h, ParkWrite(st)), h, HsmLock(h)), h, Run) == written
            && Step(written, h, Run) == SetHart(s, h, x.(base := Parked, hsm := st, parks := x.parks + 1))
  {
    var l := HsmLock(h);
    assert s.taken + {l} - {l} == s.taken && s.owner[l := h] - {l} == s.owner;
  }

  lemma ParkPosts(s: State, h: nat, st: HsmState)
    requires h < |s.harts| && s.harts[h].irq.Off? && HsmLock(h) !in s.taken && HsmLock(h) !in s.owner
    ensures var x := s.harts[h];
            Alone(SetBase(s, h, Acquire(false, ToPark(st))), h, 4)
            == SetHart(s, h, x.(base := Parked, hsm := st, parks := x.parks + 1))
  {
    ParkLocks(s, h, st);
    ParkSteps(s, h, st);
    hide Step, SetHart, Take, SetBase;
    var s0 := SetBase(s, h, Acquire(false, ToPark(st)));
    assert Alone(s0, h, 4) == Step(Step(Alone(s0, h, 2), h, Run), h, Run) by {
      assert Alone(s0, h, 3) == Step(Alone(s0, h, 2), h, Run);
    }
  }

  lemma Idles(s: State, h: nat)
    requires h < |s.harts| && s.harts[h].irq.Off? && s.harts[h].base == Parked
    ensures Alone(s, h, 2) == SetBase(s, h, Idle)
  {
    var s1 := SetBase(s, h, Switching);
    assert Step(s, h, Run) == s1;
    assert Step(s1, h, Run) == SetBase(s, h, Idle);
    hide Step, SetBase;
    AloneOne(s, h);
    AloneSum(s, h, 1, 1);
    AloneOne(s1, h);
  }

  /** A call that prints and then goes on. */
  lemma Called(s: State, h: nat, c: Choice, a: After)
    requires h < |s.harts| && s.harts[h].irq.Off? && s.harts[h].base.Kernel?
    requires !c.CallSend? && Call(s, h, c) == Acquire(false, ToPrint(a))
    ensures Step(s, h, c)
            == SetBase(Write(s, h, DiaryOf(s, h).(call := InCall(c))), h, Acquire(false, ToPrint(a)))
  {
  }

  lemma Printed(s: State, h: nat, c: Choice, a: After)
    requires h < |s.harts| && s.harts[h].irq.Off? && s.harts[h].base.Kernel?
    requires !c.CallSend? && Call(s, h, c) == Acquire(false, ToPrint(a))
    requires PrintLock !in s.taken && PrintLock !in s.owner
    ensures Alone(Step(s, h, c), h, 3)
            == SetBase(Write(s, h, DiaryOf(s, h).(call := InCall(c))), h, AfterPrint(s, h, a))
  {
    hide Step, Alone, SetBase, AfterPrint, Call;
    var u := Write(s, h, DiaryOf(s, h).(call := InCall(c)));
    Called(s, h, c, a);
    Prints(u, h, a);
    SameAfter(s, u, h, a);
  }

  lemma PrintedAndParked(s: State, h: nat, c: Choice, a: After, st: HsmState)
    requires h < |s.harts| && s.harts[h].irq.Off? && s.harts[h].base.Kernel? && s.owner.Keys == s.taken
    requires !c.CallSend? && Call(s, h, c) == Acquire(false, ToPrint(a))
    requires PrintLock !in s.taken && HsmLock(h) !in s.taken && AfterPrint(s, h, a) == Acquire(false, ToPark(st))
    ensures var r, x := Alone(Step(s, h, c), h, 9), s.harts[h];
            r.harts == s.harts[h := x.(base := Idle, hsm := st, parks := x.parks + 1)]
            && r.taken == s.taken && r.owner == s.owner
  {
    hide Step, Alone, SetBase, AfterPrint, Call;
    var u := Write(s, h, DiaryOf(s, h).(call := InCall(c)));
    Printed(s, h, c, a);
    AloneSum(Step(s, h, c), h, 3, 6);
    Parks(u, h, st);
  }

  /** sbi_hart_stop, alone and with the locks free: nine steps later the hart idles and is STOPPED. */
  lemma StopStops(s: State, h: nat)
    requires h < |s.harts| && s.harts[h].irq.Off? && s.harts[h].base.Kernel? && s.owner.Keys == s.taken
    requires PrintLock !in s.taken && HsmLock(h) !in s.taken
    ensures var r, x := Alone(Step(s, h, CallStop), h, 9), s.harts[h];
            r.harts == s.harts[h := x.(base := Idle, hsm := STOPPED, parks := x.parks + 1)]
            && r.taken == s.taken && r.owner == s.owner
  {
    hide Step, Alone;
    PrintedAndParked(s, h, CallStop, ThenStop, STOPPED);
  }

  /** sbi_hart_suspend with one of the two types and a valid address: the same, and the hart is SUSPENDED.
      Anything else is refused after three steps. */
  lemma SuspendSuspends(s: State, h: nat, kind: nat, addr: nat)
    requires h < |s.harts| && s.harts[h].irq.Off? && s.harts[h].base.Kernel? && s.owner.Keys == s.taken
    requires PrintLock !in s.taken && HsmLock(h) !in s.taken && kind <= 0xFFFF_FFFF
    ensures var u, x := Step(s, h, CallSuspend(kind, addr)), s.harts[h];
            if !(addr % 4 == 0 && 0x8000_0000 <= addr < 0x8800_0000) then
              Alone(u, h, 3).harts == s.harts[h := x.(base := Kernel(-5, 0))]
            else if kind == 0 || kind == 0x8000_0000 then
              Alone(u, h, 9).harts == s.harts[h := x.(base := Idle, hsm := SUSPENDED, parks := x.parks + 1)]
            else
              Alone(u, h, 3).harts
              == s.harts[h := x.(base := Kernel(if kind % 0x8000_0000 >= 0x1000_0000 then -2 else -3, 0))]
  {
    hide Step, Alone;
    var c, a := CallSuspend(kind, addr), ThenSuspend(kind, addr);
    Printed(s, h, c, a);
    if ValidAddress(addr) && Suspends(kind) {
      PrintedAndParked(s, h, c, a, SUSPENDED);
    }
  }

  /** sbi_hart_get_status: four steps for a hart that there is, with the number of its state, else three. */
  lemma StatusIsRead(s: State, h: nat, t: nat)
    requires h < |s.harts| && s.harts[h].irq.Off? && s.harts[h].base.Kernel? && s.owner.Keys == s.taken
    requires PrintLock !in s.taken
    ensures var u, x := Step(s, h, CallStatus(t)), s.harts[h];
            if s.first <= t < |s.harts| then
              Alone(u, h, 4).harts
              == s.harts[h := x.(base := Kernel(0, match s.harts[t].hsm
                                                   case STARTED => 0
                                                   case STOPPED => 1
                                                   case START_PENDING => 2
                                                   case STOP_PENDING => 3
                                                   case SUSPENDED => 4
                                                   case SUSPEND_PENDING => 5
                                                   case RESUME_PENDING => 6))]
            else Alone(u, h, 3).harts == s.harts[h := x.(base := Kernel(-3, 0))]
  {
    hide Step, Alone;
    Printed(s, h, CallStatus(t), ThenStatus(t));
    if s.first <= t < |s.harts| {
      AloneSum(Step(s, h, CallStatus(t)), h, 3, 1);
      StatusStep(Write(s, h, DiaryOf(s, h).(call := InCall(CallStatus(t)))), h, t);
    }
  }

  lemma StatusStep(s: State, h: nat, t: nat)
    requires h < |s.harts| && t < |s.harts| && s.harts[h].irq.Off?
    ensures Alone(SetBase(s, h, Status(t)), h, 1).harts
            == s.harts[h := s.harts[h].(base := Kernel(0, StateNumber(s.harts[t].hsm)))]
  {
    hide StateNumber;
    AloneOne(SetBase(s, h, Status(t)), h);
  }

  /** A call of sbi_hart_start that is refused at once: three steps. */
  lemma StartIsRefused(s: State, h: nat, t: nat, addr: nat, arg: nat)
    requires h < |s.harts| && s.harts[h].irq.Off? && s.harts[h].base.Kernel? && s.owner.Keys == s.taken
    requires PrintLock !in s.taken
    requires !(s.first <= t < |s.harts|) || !(addr % 4 == 0 && 0x8000_0000 <= addr < 0x8800_0000) || t == h
    ensures Alone(Step(s, h, CallStart(t, addr, arg)), h, 3).harts
            == s.harts[h := s.harts[h].(base := Kernel(if !(s.first <= t < |s.harts|) then -3
                                                       else if t == h && addr % 4 == 0
                                                               && 0x8000_0000 <= addr < 0x8800_0000 then -6
                                                       else -5, 0))]
  {
    hide Step, Alone;
    var error := if !(s.first <= t < |s.harts|) then -3
                 else if t == h && addr % 4 == 0 && 0x8000_0000 <= addr < 0x8800_0000 then -6 else -5;
    Printed(s, h, CallStart(t, addr, arg), Return(error));
  }
}

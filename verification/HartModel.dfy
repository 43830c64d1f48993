/** The harts as one transition system: a command mailbox and a state word per hart, spinlocks, and
    on every hart a program counter that runs SBI calls and is interrupted by the command handler.
    One step is one access to shared memory; steps of different harts interleave in any order. */
module HartModel {

  // --- constants ------------------------------------------------------------------------------

  const STARTHART := 14
  const REMOTE_FENCE_I := 17
  const REMOTE_SFENCE_VMA := 18
  const REMOTE_SFENCE_VMA_ASID := 19
  const SMODE_SOFTINT := 20

  const SUCCESS := 0
  const ERR_NOT_SUPPORTED := -2
  const ERR_INVALID_PARAM := -3
  const ERR_INVALID_ADDRESS := -5
  const ERR_ALREADY_AVAILABLE := -6

  const SUSPEND_RETENTIVE := 0x0000_0000
  const SUSPEND_NONRETENTIVE := 0x8000_0000

  const MEMORY_BASE := 0x8000_0000
  const MEMORY_AVAILABLE := 0x0800_0000

  // --- data ---------------------------------------------------------------------------------------

  datatype HsmState = STARTED | STOPPED | START_PENDING | STOP_PENDING | SUSPENDED | SUSPEND_PENDING | RESUME_PENDING

  /** Hart_Command: word 0 is the command, words 1 to 6 are param0 to param5. */
  type Command = c: seq<int> | |c| == 7 witness [0, 0, 0, 0, 0, 0, 0]

  /** The three ways to send: return at once, wait until handled, or also read the slot back. */
  datatype Kind = Que | Blk | Ret

  /** A command on its way to a hart; starts says that the sender has claimed the target. */
  datatype Message = Message(kind: Kind, target: nat, cmd: Command, starts: bool)

  datatype Lock = PrintLock | HsmLock(hart: nat) | QueLock(hart: nat)

  /** What a call does after a line has been printed. */
  datatype After =
    | Return(error: int)
    | ThenStop
    | ThenSuspend(kind: nat, resumeAddr: nat)
    | ThenStatus(target: nat)
    | ThenLose(target: nat)

  /** What a hart wants the lock for that it is waiting for. */
  datatype Goal =
    | ToPrint(after: After)
    | ToStart(target: nat, addr: nat, arg: nat)
    | ToPark(state: HsmState)
    | ToSend(msg: Message, rest: seq<Message>)

  /** Program counter outside the interrupt handler. */
  datatype Base =
    | Kernel(a0: int, a1: int)                              // S- or U-mode; error and value of the last call
    | Acquire(swap: bool, goal: Goal)                       // ksem_wait: the load, then the amoswap
    | Printing(after: After)
    | Reading(target: nat, addr: nat, arg: nat)         // sbi_hart_start, reading the state
    | Claiming(target: nat, addr: nat, arg: nat)        // about to write START_PENDING
    | Claimed(target: nat, addr: nat, arg: nat)         // about to post the HSM lock
    | Losing(target: nat)
    | Status(target: nat)
    | ParkWrite(state: HsmState)                            // about to write STOPPED or SUSPENDED
    | ParkPost
    | Parked                                                // in switch_context, interrupts still on
    | Switching                                             // interrupts off
    | Idle                                                  // idle loop in M-mode
    | Poll(msg: Message, rest: seq<Message>)               // send: waiting for msip to be clear
    | Copying(done: nat, msg: Message, rest: seq<Message>)
    | Kick(msg: Message, rest: seq<Message>)               // about to set msip
    | Drain(msg: Message, rest: seq<Message>)              // blk, ret: waiting again
    | ReadBack(acc: seq<int>, msg: Message, rest: seq<Message>)
    | Release(msg: Message, back: seq<int>, rest: seq<Message>)

  /** Program counter of the software interrupt handler, which runs with interrupts off. */
  datatype Irq =
    | Off
    | Fetch(copy: seq<int>)                                 // copying the slot, word by word
    | StartPrint(swap: bool, cmd: Command)
    | StartPrinting(cmd: Command)
    | StartWait(swap: bool, cmd: Command)
    | StartWrite(cmd: Command)
    | StartPost(cmd: Command)
    | ClearCommand(cmd: Command)
    | ClearMsip(cmd: Command)
    | Unhandled(cmd: Command)

  /** The registers set for a hart that is started. */
  datatype Entry = Entry(pc: int, a0: int, a1: int)

  datatype Sent = Sent(sender: nat, cmd: Command)

  datatype Win = Win(starter: nat, addr: nat, arg: nat)

  datatype Token = NoStart | WithSender(sender: nat) | InMailbox

  /** A hart: its program counters, its mailbox and state word, and what has happened to it so far.
      order, handled, token, parks, wins and launches are history; no step depends on them. */
  datatype Hart = Hart(
    base: Base, irq: Irq,
    msip: bool, slot: Command, hsm: HsmState, user: Entry,
    order: seq<Sent>, handled: seq<Command>, token: Token,
    parks: nat, wins: seq<Win>, launches: seq<Entry>)

  /** What a kernel has called since it was started, and, over all time, the messages that its calls were
      asked to send and those that have got their place in an order.  All of it is history. */
  datatype Diary = Diary(call: Calling, asked: seq<Message>, ordered: seq<Message>)

  datatype Calling = NoCall | InCall(choice: Choice)

  /** taken holds the locks whose word is 1; owner, also history, says who set it. */
  datatype State = State(first: nat, harts: seq<Hart>, taken: set<Lock>, owner: map<Lock, nat>, diary: map<nat, Diary>)

  // --- small functions --------------------------------------------------------------------------------

  predicate ValidHart(s: State, h: int) {
    s.first <= h < |s.harts|
  }

  predicate ValidAddress(addr: int) {
    addr % 4 == 0 && MEMORY_BASE <= addr < MEMORY_BASE + MEMORY_AVAILABLE
  }

  predicate Fence(c: Command) {
    c[0] == REMOTE_FENCE_I || c[0] == REMOTE_SFENCE_VMA || c[0] == REMOTE_SFENCE_VMA_ASID || c[0] == SMODE_SOFTINT
  }

  /** The slot after the handler has cleared the command word. */
  function Cleared(c: Command): Command { c[0 := 0] }

  function StartCommand(target: nat, addr: nat, arg: nat): Command {
    [STARTHART, target, addr, arg, 0, 0, 0]
  }

  function StartEntry(h: nat, c: Command): Entry { Entry(c[2], h, c[3]) }

  function Suspends(kind: nat): bool { kind == SUSPEND_RETENTIVE || kind == SUSPEND_NONRETENTIVE }

  function SuspendError(kind: nat): int {
    if 0x0000_0001 <= kind <= 0x0FFF_FFFF then ERR_INVALID_PARAM
    else if 0x1000_0000 <= kind <= 0x7FFF_FFFF then ERR_NOT_SUPPORTED
    else if 0x8000_0001 <= kind <= 0x8FFF_FFFF then ERR_INVALID_PARAM
    else if 0x9000_0000 <= kind <= 0xFFFF_FFFF then ERR_NOT_SUPPORTED
    else ERR_INVALID_PARAM
  }

  function GoalLock(h: nat, g: Goal): Lock {
    match g
    case ToPrint(_) => PrintLock
    case ToStart(t, _, _) => HsmLock(t)
    case ToPark(_) => HsmLock(h)
    case ToSend(m, _) => QueLock(m.target)
  }

  function SetHart(s: State, h: nat, x: Hart): (r: State)
    requires h < |s.harts|
    ensures |r.harts| == |s.harts|
  {
    s.(harts := s.harts[h := x])
  }

  function SetBase(s: State, h: nat, b: Base): (r: State)
    requires h < |s.harts|
    ensures |r.harts| == |s.harts|
  {
    SetHart(s, h, s.harts[h].(base := b))
  }

  function SetIrq(s: State, h: nat, i: Irq): (r: State)
    requires h < |s.harts|
    ensures |r.harts| == |s.harts|
  {
    SetHart(s, h, s.harts[h].(irq := i))
  }

  function Take(s: State, h: nat, l: Lock): State {
    s.(taken := s.taken + {l}, owner := s.owner[l := h])
  }

  /** ksem_post */
  function Post(s: State, l: Lock): State {
    s.(taken := s.taken - {l}, owner := s.owner - {l})
  }

  function DiaryOf(s: State, h: nat): Diary {
    if h in s.diary then s.diary[h] else Diary(NoCall, [], [])
  }

  function Write(s: State, h: nat, d: Diary): State {
    s.(diary := s.diary[h := d])
  }

  // --- SBI calls ------------------------------------------------------------------------------------------

  datatype Choice =
    | CallStart(hartid: nat, addr: nat, arg: nat)
    | CallStop
    | CallSuspend(kind: nat, resumeAddr: nat)
    | CallStatus(hartid: nat)
    | CallSend(msgs: seq<Message>)
    | CallOther(error: int)
    | Run
    | Interrupt

  /** Sends made by the SBI calls go to other harts and carry commands that return. */
  predicate Sendable(s: State, h: nat, m: Message) {
    ValidHart(s, m.target) && m.target != h && Fence(m.cmd) && !m.starts
  }

  predicate AllSendable(s: State, h: nat, msgs: seq<Message>) {
    forall m <- msgs :: Sendable(s, h, m)
  }

  function SendAll(msgs: seq<Message>): Base {
    if msgs == [] then Kernel(SUCCESS, 0) else Acquire(false, ToSend(msgs[0], msgs[1..]))
  }

  function StartCall(s: State, h: nat, target: nat, addr: nat, arg: nat): Base {
    if !ValidHart(s, target) then Acquire(false, ToPrint(Return(ERR_INVALID_PARAM)))
    else if !ValidAddress(addr) then Acquire(false, ToPrint(Return(ERR_INVALID_ADDRESS)))
    else if target == h then Acquire(false, ToPrint(Return(ERR_ALREADY_AVAILABLE)))
    else Acquire(false, ToStart(target, addr, arg))
  }

  /** What a hart in the kernel does when it traps into the firmware. */
  function Call(s: State, h: nat, c: Choice): Base
    requires h < |s.harts| && s.harts[h].base.Kernel?
  {
    match c
    case CallStart(t, a, o) => StartCall(s, h, t, a, o)
    case CallStop => Acquire(false, ToPrint(ThenStop))
    case CallSuspend(k, a) => Acquire(false, ToPrint(ThenSuspend(k, a)))
    case CallStatus(t) => Acquire(false, ToPrint(ThenStatus(t)))
    case CallSend(msgs) => if AllSendable(s, h, msgs) then SendAll(msgs) else s.harts[h].base
    case CallOther(e) => Acquire(false, ToPrint(Return(e)))
    case Run => s.harts[h].base
    case Interrupt => s.harts[h].base
  }

  /** The diary of a hart whose kernel has just chosen. */
  function Noted(s: State, h: nat, c: Choice): State {
    var d := DiaryOf(s, h);
    match c
    case Run => s
    case Interrupt => s
    case CallSend(msgs) =>
      if AllSendable(s, h, msgs) then Write(s, h, d.(call := InCall(c), asked := d.asked + msgs)) else s
    case _ => Write(s, h, d.(call := InCall(c)))
  }

  /** Where a call goes on once printm has posted its lock. */
  function AfterPrint(s: State, h: nat, a: After): Base {
    match a
    case Return(e) => Kernel(e, 0)
    case ThenStop => Acquire(false, ToPark(STOPPED))
    case ThenSuspend(k, addr) =>
      if !ValidAddress(addr) then Kernel(ERR_INVALID_ADDRESS, 0)
      else if Suspends(k) then Acquire(false, ToPark(SUSPENDED))
      else Kernel(SuspendError(k), 0)
    case ThenStatus(t) => if ValidHart(s, t) then Status(t) else Kernel(ERR_INVALID_PARAM, 0)
    case ThenLose(t) => Losing(t)
  }

  /** Where a call goes on with the lock in hand. */
  function Entered(g: Goal): Base {
    match g
    case ToPrint(a) => Printing(a)
    case ToStart(t, a, o) => Reading(t, a, o)
    case ToPark(st) => ParkWrite(st)
    case ToSend(m, rest) => Poll(m, rest)
  }

  function Busy(st: HsmState): bool {
    st == STARTED || st == START_PENDING || st == RESUME_PENDING
  }

  /** The numbers of the states, as sbi_hart_get_status returns them. */
  function StateNumber(st: HsmState): nat {
    match st
    case STARTED => 0
    case STOPPED => 1
    case START_PENDING => 2
    case STOP_PENDING => 3
    case SUSPENDED => 4
    case SUSPEND_PENDING => 5
    case RESUME_PENDING => 6
  }

  // --- one step outside the handler ---------------------------------------------------------------------------

  function StepAcquire(s: State, h: nat): State
    requires h < |s.harts| && s.harts[h].base.Acquire?
  {
    var b := s.harts[h].base;
    var l := GoalLock(h, b.goal);
    if !b.swap then
      if l in s.taken then s else SetBase(s, h, Acquire(true, b.goal))
    else if l in s.taken then SetBase(s, h, Acquire(false, b.goal))
    else
      var s' := Take(SetBase(s, h, Entered(b.goal)), h, l);
      if b.goal.ToSend? && b.goal.msg.target < |s.harts| then LogOrder(s', h, b.goal.msg) else s'
  }

  function LogOrder(s: State, h: nat, m: Message): State
    requires m.target < |s.harts|
  {
    var t, d := s.harts[m.target], DiaryOf(s, h);
    var s' := SetHart(s, m.target, t.(order := t.order + [Sent(h, m.cmd)]));
    if m.starts then s' else Write(s', h, d.(ordered := d.ordered + [m]))
  }

  /** sbi_hart_start writes START_PENDING. */
  function StepClaim(s: State, h: nat): State
    requires h < |s.harts| && s.harts[h].base.Claiming? && s.harts[h].base.target < |s.harts|
  {
    var b := s.harts[h].base;
    var s' := SetBase(s, h, Claimed(b.target, b.addr, b.arg));
    var t := s'.harts[b.target];
    SetHart(s', b.target, t.(hsm := START_PENDING, token := WithSender(h), wins := t.wins + [Win(h, b.addr, b.arg)]))
  }

  function StepParkWrite(s: State, h: nat): State
    requires h < |s.harts| && s.harts[h].base.ParkWrite?
  {
    var x := s.harts[h];
    SetHart(s, h, x.(base := ParkPost, hsm := x.base.state, parks := x.parks + 1))
  }

  function StepCopy(s: State, h: nat): State
    requires h < |s.harts| && s.harts[h].base.Copying? && s.harts[h].base.msg.target < |s.harts|
  {
    var b := s.harts[h].base;
    if b.done < 7 then
      var s' := SetBase(s, h, Copying(b.done + 1, b.msg, b.rest));
      var t := s'.harts[b.msg.target];
      SetHart(s', b.msg.target, t.(slot := t.slot[b.done := b.msg.cmd[b.done]]))
    else SetBase(s, h, Kick(b.msg, b.rest))
  }

  function StepKick(s: State, h: nat): State
    requires h < |s.harts| && s.harts[h].base.Kick? && s.harts[h].base.msg.target < |s.harts|
  {
    var b := s.harts[h].base;
    var s' := SetBase(s, h, if b.msg.kind == Que then Release(b.msg, [], b.rest) else Drain(b.msg, b.rest));
    var t := s'.harts[b.msg.target];
    SetHart(s', b.msg.target, t.(msip := true, token := if b.msg.starts then InMailbox else t.token))
  }

  function StepReadBack(s: State, h: nat): State
    requires h < |s.harts| && s.harts[h].base.ReadBack? && s.harts[h].base.msg.target < |s.harts|
  {
    var b := s.harts[h].base;
    if |b.acc| < 7 then SetBase(s, h, ReadBack(b.acc + [s.harts[b.msg.target].slot[|b.acc|]], b.msg, b.rest))
    else SetBase(s, h, Release(b.msg, b.acc, b.rest))
  }

  /** One step of a hart that is not handling an interrupt; a pointer out of range does not occur. */
  function StepBase(s: State, h: nat, c: Choice): (r: State)
    requires h < |s.harts|
    ensures |r.harts| == |s.harts| && r.first == s.first
  {
    var b := s.harts[h].base;
    match b
    case Kernel(_, _) => SetBase(Noted(s, h, c), h, Call(s, h, c))
    case Acquire(_, _) => StepAcquire(s, h)
    case Printing(a) => SetBase(Post(s, PrintLock), h, AfterPrint(s, h, a))
    case Reading(t, a, o) =>
      if t < |s.harts| && Busy(s.harts[t].hsm) then SetBase(s, h, Acquire(false, ToPrint(ThenLose(t))))
      else SetBase(s, h, Claiming(t, a, o))
    case Claiming(t, _, _) => if t < |s.harts| then StepClaim(s, h) else s
    case Claimed(t, a, o) =>
      SetBase(Post(s, HsmLock(t)), h, Acquire(false, ToSend(Message(Que, t, StartCommand(t, a, o), true), [])))
    case Losing(t) => SetBase(Post(s, HsmLock(t)), h, Kernel(ERR_ALREADY_AVAILABLE, 0))
    case Status(t) => SetBase(s, h, Kernel(SUCCESS, if t < |s.harts| then StateNumber(s.harts[t].hsm) else 0))
    case ParkWrite(_) => StepParkWrite(s, h)
    case ParkPost => SetBase(Post(s, HsmLock(h)), h, Parked)
    case Parked => SetBase(s, h, Switching)
    case Switching => SetBase(s, h, Idle)
    case Idle => s
    case Poll(m, rest) =>
      if m.target < |s.harts| && s.harts[m.target].msip then s else SetBase(s, h, Copying(0, m, rest))
    case Copying(_, m, _) => if m.target < |s.harts| then StepCopy(s, h) else s
    case Kick(m, _) => if m.target < |s.harts| then StepKick(s, h) else s
    case Drain(m, rest) =>
      if m.target < |s.harts| && s.harts[m.target].msip then s
      else SetBase(s, h, if m.kind == Ret then ReadBack([], m, rest) else Release(m, [], rest))
    case ReadBack(_, m, _) => if m.target < |s.harts| then StepReadBack(s, h) else s
    case Release(m, _, rest) => SetBase(Post(s, QueLock(m.target)), h, SendAll(rest))
  }

  // --- one step of the handler ---------------------------------------------------------------------------------

  /** The branch on the command word of the local copy. */
  function Dispatch(c: Command): Irq {
    if c[0] == STARTHART then StartPrint(false, c)
    else if Fence(c) then ClearCommand(c)
    else Unhandled(c)
  }

  /** The last write of the handler clears msip; a started hart then leaves for its kernel. */
  function StepClearMsip(s: State, h: nat): State
    requires h < |s.harts| && s.harts[h].irq.ClearMsip?
  {
    var x := s.harts[h];
    var c := x.irq.cmd;
    var x' := x.(irq := Off, msip := false, handled := x.handled + [c]);
    if c[0] == STARTHART then
      SetHart(Write(s, h, DiaryOf(s, h).(call := NoCall)), h,
              x'.(base := Kernel(x.user.a0, x.user.a1), launches := x.launches + [x.user]))
    else SetHart(s, h, x')
  }

  function StepIrq(s: State, h: nat): (r: State)
    requires h < |s.harts| && !s.harts[h].irq.Off?
    ensures |r.harts| == |s.harts| && r.first == s.first
  {
    var x := s.harts[h];
    match x.irq
    case Fetch(copy) =>
      if |copy| < 6 then SetIrq(s, h, Fetch(copy + [x.slot[|copy|]]))
      else if |copy| == 6 then SetIrq(s, h, Dispatch(copy + [x.slot[6]]))
      else s
    case StartPrint(swap, c) =>
      if PrintLock in s.taken then SetIrq(s, h, StartPrint(false, c))
      else if !swap then SetIrq(s, h, StartPrint(true, c))
      else Take(SetIrq(s, h, StartPrinting(c)), h, PrintLock)
    case StartPrinting(c) =>
      var s' := Post(s, PrintLock);
      SetHart(s', h, x.(irq := StartWait(false, c), user := StartEntry(h, c)))
    case StartWait(swap, c) =>
      if HsmLock(h) in s.taken then SetIrq(s, h, StartWait(false, c))
      else if !swap then SetIrq(s, h, StartWait(true, c))
      else Take(SetIrq(s, h, StartWrite(c)), h, HsmLock(h))
    case StartWrite(c) => SetHart(s, h, x.(irq := StartPost(c), hsm := STARTED, token := NoStart))
    case StartPost(c) => SetIrq(Post(s, HsmLock(h)), h, ClearCommand(c))
    case ClearCommand(c) => SetHart(s, h, x.(irq := ClearMsip(c), slot := x.slot[0 := 0]))
    case ClearMsip(_) => StepClearMsip(s, h)
    case Unhandled(_) => s
  }

  // --- runs --------------------------------------------------------------------------------------------------------

  /** One step of hart h.  The software interrupt is taken between any two steps while it is pending,
      except in the part of switch_context that has interrupts off. */
  function Step(s: State, h: nat, c: Choice): (r: State)
    requires h < |s.harts|
    ensures |r.harts| == |s.harts| && r.first == s.first
  {
    hide StepBase, StepIrq;
    var x := s.harts[h];
    if !x.irq.Off? then StepIrq(s, h)
    else if c == Interrupt && x.msip && !x.base.Switching? then SetIrq(s, h, Fetch([]))
    else StepBase(s, h, c)
  }

  datatype Turn = Turn(hart: nat, choice: Choice)

  /** Any schedule: which hart moves next, and what its kernel or the interrupt line does then. */
  function Exec(s: State, schedule: seq<Turn>): (r: State)
    ensures |r.harts| == |s.harts| && r.first == s.first
    decreases |schedule|
  {
    if schedule == [] then s
    else
      var p := Exec(s, schedule[..|schedule| - 1]);
      var turn := schedule[|schedule| - 1];
      if turn.hart < |p.harts| then Step(p, turn.hart, turn.choice) else p
  }

  function Fresh(h: nat): Hart {
    Hart(if h == 0 then Kernel(0, 0) else Idle, Off, false, [0, 0, 0, 0, 0, 0, 0],
         if h == 0 then STARTED else STOPPED, Entry(0, 0, 0), [], [], NoStart, if h == 0 then 0 else 1, [], [])
  }

  /** Hart 0 started, the others stopped, every lock free and no interrupt pending. */
  function Boot(n: nat, first: nat): State {
    State(first, seq(n, h requires 0 <= h => Fresh(h)), {}, map[], map[])
  }
}

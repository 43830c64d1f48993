/** What ties the program counters, the mailboxes, the state words and the locks of all harts
    together, and that it holds at the start. */
module HartInvariant {
  import opened HartModel

  // --- reading a program counter ---------------------------------------------------------------

  function AfterHolds(a: After): set<Lock> {
    if a.ThenLose? then {HsmLock(a.target)} else {}
  }

  /** The locks hart h holds at a point outside the handler. */
  function BaseHolds(h: nat, b: Base): set<Lock> {
    match b
    case Acquire(_, g) => if g.ToPrint? then AfterHolds(g.after) else {}
    case Printing(a) => {PrintLock} + AfterHolds(a)
    case Reading(t, _, _) => {HsmLock(t)}
    case Claiming(t, _, _) => {HsmLock(t)}
    case Claimed(t, _, _) => {HsmLock(t)}
    case Losing(t) => {HsmLock(t)}
    case ParkWrite(_) => {HsmLock(h)}
    case ParkPost => {HsmLock(h)}
    case Poll(m, _) => {QueLock(m.target)}
    case Copying(_, m, _) => {QueLock(m.target)}
    case Kick(m, _) => {QueLock(m.target)}
    case Drain(m, _) => {QueLock(m.target)}
    case ReadBack(_, m, _) => {QueLock(m.target)}
    case Release(m, _, _) => {QueLock(m.target)}
    case _ => {}
  }

  function IrqHolds(h: nat, i: Irq): set<Lock> {
    match i
    case StartPrinting(_) => {PrintLock}
    case StartWrite(_) => {HsmLock(h)}
    case StartPost(_) => {HsmLock(h)}
    case _ => {}
  }

  function Holds(h: nat, x: Hart): set<Lock> {
    BaseHolds(h, x.base) + IrqHolds(h, x.irq)
  }

  /** The message a hart has not yet signalled, although it has the lock of the mailbox. */
  predicate Unposted(b: Base) {
    b.Poll? || b.Copying? || b.Kick?
  }

  predicate Sending(b: Base) {
    Unposted(b) || b.Drain? || b.ReadBack? || b.Release?
  }

  /** Hart has claimed target t and its STARTHART is not signalled yet. */
  predicate Starting(b: Base, t: nat) {
    match b
    case Claimed(u, _, _) => u == t
    case Acquire(_, g) => g.ToSend? && g.msg.starts && g.msg.target == t
    case Poll(m, _) => m.starts && m.target == t
    case Copying(_, m, _) => m.starts && m.target == t
    case Kick(m, _) => m.starts && m.target == t
    case _ => false
  }

  /** The address and argument that such a hart is going to send. */
  function StartData(b: Base): (int, int) {
    match b
    case Claimed(_, a, o) => (a, o)
    case Acquire(_, ToSend(m, _)) => (m.cmd[2], m.cmd[3])
    case Poll(m, _) => (m.cmd[2], m.cmd[3])
    case Copying(_, m, _) => (m.cmd[2], m.cmd[3])
    case Kick(m, _) => (m.cmd[2], m.cmd[3])
    case _ => (0, 0)
  }

  predicate AtRest(b: Base) {
    b.ParkPost? || b.Parked? || b.Switching? || b.Idle?
  }

  /** The STARTHART handler before the write of STARTED. */
  predicate BeforeStarted(i: Irq) {
    i.StartPrint? || i.StartPrinting? || i.StartWait? || i.StartWrite?
  }

  /** The STARTHART handler after the write of STARTED. */
  predicate AfterStarted(i: Irq) {
    i.StartPost? || ((i.ClearCommand? || i.ClearMsip?) && i.cmd[0] == STARTHART)
  }

  // --- the invariant ------------------------------------------------------------------------------

  predicate MessageOk(s: State, h: nat, m: Message) {
    m.target < |s.harts| && m.target != h
    && (if m.starts then m.kind == Que && m.cmd[0] == STARTHART && m.cmd[2] >= 0 && m.cmd[3] >= 0 else Fence(m.cmd))
  }

  predicate RestOk(s: State, h: nat, rest: seq<Message>) {
    forall m <- rest :: MessageOk(s, h, m) && !m.starts
  }

  /** A claimed start is a message of its own. */
  predicate LoadOk(s: State, h: nat, m: Message, rest: seq<Message>) {
    MessageOk(s, h, m) && RestOk(s, h, rest) && (m.starts ==> rest == [])
  }

  predicate AfterOk(s: State, h: nat, a: After) {
    a.ThenLose? ==> a.target < |s.harts| && a.target != h
  }

  predicate GoalOk(s: State, h: nat, g: Goal) {
    match g
    case ToPrint(a) => AfterOk(s, h, a)
    case ToStart(t, _, _) => t < |s.harts| && t != h
    case ToPark(st) => st == STOPPED || st == SUSPENDED
    case ToSend(m, rest) => LoadOk(s, h, m, rest)
  }

  /** Targets are other harts, and a state being written is one of the two resting states. */
  predicate PcOk(s: State, h: nat, b: Base) {
    match b
    case Acquire(_, g) => GoalOk(s, h, g)
    case Printing(a) => AfterOk(s, h, a)
    case Reading(t, _, _) => t < |s.harts| && t != h
    case Claiming(t, _, _) => t < |s.harts| && t != h
    case Claimed(t, _, _) => t < |s.harts| && t != h
    case Losing(t) => t < |s.harts| && t != h
    case ParkWrite(st) => st == STOPPED || st == SUSPENDED
    case Poll(m, rest) => LoadOk(s, h, m, rest)
    case Copying(k, m, rest) => k <= 7 && LoadOk(s, h, m, rest)
    case Kick(m, rest) => LoadOk(s, h, m, rest)
    case Drain(m, rest) => LoadOk(s, h, m, rest) && m.kind != Que
    case ReadBack(_, m, rest) => LoadOk(s, h, m, rest) && m.kind == Ret
    case Release(m, _, rest) => LoadOk(s, h, m, rest)
    case _ => true
  }

  /** The handler of a hart whose mailbox holds c: what it has read so far, and what is in the slot. */
  predicate HandlerOk(i: Irq, slot: Command, c: Command) {
    match i
    case Off => slot == c
    case Fetch(copy) => slot == c && |copy| < 7 && copy == c[..|copy|]
    case StartPrint(_, d) => slot == c == d && d[0] == STARTHART
    case StartPrinting(d) => slot == c == d && d[0] == STARTHART
    case StartWait(_, d) => slot == c == d && d[0] == STARTHART
    case StartWrite(d) => slot == c == d && d[0] == STARTHART
    case StartPost(d) => slot == c == d && d[0] == STARTHART
    case ClearCommand(d) => slot == c == d
    case ClearMsip(d) => c == d && slot == Cleared(c)
    case Unhandled(_) => false
  }

  /** Commands ordered in the mailbox but not handled: in the mailbox, or still with their sender. */
  function Ahead(x: Hart): int {
    |x.order| - |x.handled| - (if x.msip then 1 else 0)
  }

  /** One mailbox, seen from its owner: commands are handled whole and in the order of the locks. */
  predicate MailOk(x: Hart) {
    && (Ahead(x) == 0 || Ahead(x) == 1)
    && (forall i | 0 <= i < |x.handled| :: x.handled[i] == x.order[i].cmd)
    && (forall i | 0 <= i < |x.order| :: x.order[i].cmd[0] == STARTHART || Fence(x.order[i].cmd))
    && (if x.msip then HandlerOk(x.irq, x.slot, x.order[|x.handled|].cmd) else x.irq.Off?)
  }

  predicate Mailed(x: Hart) {
    x.msip && |x.handled| < |x.order| && x.order[|x.handled|].cmd[0] == STARTHART && !AfterStarted(x.irq)
  }

  predicate Resting(st: HsmState) { st == STOPPED || st == SUSPENDED }

  /** One hart: its state word against its program counters and its history. */
  predicate StateOk(h: nat, x: Hart) {
    && (x.hsm == STARTED || x.hsm == STOPPED || x.hsm == SUSPENDED || x.hsm == START_PENDING)
    && (x.hsm == START_PENDING <==> x.token != NoStart)
    && (x.token.InMailbox? <==> Mailed(x))
    && (if BeforeStarted(x.irq) then x.hsm == START_PENDING && (x.base.Parked? || x.base.Idle?)
        else if AfterStarted(x.irq) then x.hsm == STARTED && (x.base.Parked? || x.base.Idle?)
        else (AtRest(x.base) <==> x.hsm != STARTED))
    && (x.base.ParkPost? ==> Resting(x.hsm))
    && (!x.irq.Off? ==> !x.base.Switching?)
  }

  /** One hart: every rest ends in one claim, and every claim in one launch with the winner's data. */
  predicate HistoryOk(h: nat, x: Hart) {
    && |x.wins| + (if Resting(x.hsm) then 1 else 0) == x.parks
    && |x.launches| + (if x.token != NoStart || AfterStarted(x.irq) then 1 else 0) == |x.wins|
    && (forall i | 0 <= i < |x.launches| :: x.launches[i] == Entry(x.wins[i].addr, h, x.wins[i].arg))
    && (x.token.InMailbox? || AfterStarted(x.irq) ==>
          |x.wins| > 0 && |x.handled| < |x.order|
          && var c, w := x.order[|x.handled|].cmd, x.wins[|x.wins| - 1]; c[2] == w.addr && c[3] == w.arg)
    && (x.irq.StartWait? || x.irq.StartWrite? || AfterStarted(x.irq) ==> x.user == StartEntry(h, x.irq.cmd))
  }

  /** A sender against the mailbox it has locked. */
  predicate SenderOk(g: nat, b: Base, x: Hart)
    requires Sending(b)
  {
    && (Unposted(b) ==> Ahead(x) == 1) && (!Unposted(b) ==> Ahead(x) == 0)
    && ((Unposted(b) || b.Drain? || b.ReadBack? || (b.Release? && b.msg.kind != Que)) ==>
          |x.order| > 0 && x.order[|x.order| - 1] == Sent(g, b.msg.cmd))
    && (b.Copying? ==> !x.msip && b.done <= 7 && x.slot[..b.done] == b.msg.cmd[..b.done])
    && (b.Kick? ==> !x.msip && x.slot == b.msg.cmd)
    && (b.Drain? && !x.msip ==> x.slot == Cleared(b.msg.cmd))
    && (b.ReadBack? ==> !x.msip && x.slot == Cleared(b.msg.cmd) && |b.acc| <= 7 && b.acc == x.slot[..|b.acc|])
    && (b.Release? && b.msg.kind != Que ==> !x.msip)
    && (b.Release? && b.msg.kind == Ret ==> b.back == Cleared(b.msg.cmd))
  }

  /** A hart that has claimed another against the record of the claim. */
  predicate StarterOk(g: nat, b: Base, x: Hart) {
    x.token == WithSender(g) && |x.wins| > 0
    && var w := x.wins[|x.wins| - 1]; w.starter == g && StartData(b) == (w.addr, w.arg)
  }

  function Target(b: Base): nat {
    match b
    case Claiming(t, _, _) => t
    case Claimed(t, _, _) => t
    case Acquire(_, g) => if g.ToSend? then g.msg.target else 0
    case Poll(m, _) => m.target
    case Copying(_, m, _) => m.target
    case Kick(m, _) => m.target
    case Drain(m, _) => m.target
    case ReadBack(_, m, _) => m.target
    case Release(m, _, _) => m.target
    case _ => 0
  }

  /** One hart against the hart it is calling. */
  predicate LinkOk(g: nat, b: Base, x: Hart) {
    && (Sending(b) ==> SenderOk(g, b, x))
    && (Starting(b, Target(b)) ==> StarterOk(g, b, x))
    && (b.Claiming? ==> Resting(x.hsm))
  }

  /** One hart against the hart that is calling it. */
  predicate BackLinkOk(s: State, t: nat)
    requires t < |s.harts|
  {
    var x := s.harts[t];
    && (Ahead(x) == 1 ==> QueLock(t) in s.owner && s.owner[QueLock(t)] < |s.harts|
                          && var b := s.harts[s.owner[QueLock(t)]].base; Unposted(b) && b.msg.target == t)
    && (x.token.WithSender? ==> x.token.sender < |s.harts| && Starting(s.harts[x.token.sender].base, t))
  }

  ghost predicate HoldsOk(s: State, h: nat)
    requires h < |s.harts|
  {
    forall l :: l in Holds(h, s.harts[h]) <==> l in s.owner && s.owner[l] == h
  }

  ghost predicate LocksOk(s: State) {
    && s.owner.Keys == s.taken
    && (forall l <- s.owner :: s.owner[l] < |s.harts|)
    && (forall h | 0 <= h < |s.harts| :: HoldsOk(s, h))
  }

  predicate Local(s: State, h: nat)
    requires h < |s.harts|
  {
    var x := s.harts[h];
    PcOk(s, h, x.base) && MailOk(x) && StateOk(h, x) && HistoryOk(h, x)
  }

  predicate Linked(s: State, h: nat)
    requires h < |s.harts|
  {
    var b := s.harts[h].base;
    Target(b) < |s.harts| && LinkOk(h, b, s.harts[Target(b)])
  }

  ghost predicate Inv(s: State) {
    && LocksOk(s)
    && (forall h | 0 <= h < |s.harts| :: Local(s, h))
    && (forall h | 0 <= h < |s.harts| :: Linked(s, h))
    && (forall h | 0 <= h < |s.harts| :: BackLinkOk(s, h))
  }

  lemma BootInv(n: nat, first: nat)
    ensures Inv(Boot(n, first))
  {
    hide Local, Linked, BackLinkOk;
    var s := Boot(n, first);
    forall h | 0 <= h < n ensures Local(s, h) && Linked(s, h) && BackLinkOk(s, h) {
      FreshOk(s, n, first, h);
    }
  }

  lemma FreshOk(s: State, n: nat, first: nat, h: nat)
    requires s == Boot(n, first) && h < n
    ensures Local(s, h) && Linked(s, h) && BackLinkOk(s, h)
  {
    assert s.harts[h] == Fresh(h);
    hide LocksOk;
  }
}

/** Trap entry and exit of one hart: src/interrupts/context_switch_asm.S and the macros of
    context_switch_asm.h.  Addresses count words; a frame is context_id, execution_mode, reserved_0
    and 32 registers, register 0 holding the program counter.  The fields of mstatus are kept apart. */
module Trap {

  const FRAME_WORDS := 35
  const MODE_M := 3

  const RA := 1
  const SP := 2
  const GP := 3
  const TP := 4
  const T0 := 5
  const T1 := 6
  const T2 := 7
  const S0 := 8
  const A0 := 10
  const A1 := 11
  const A2 := 12
  const A3 := 13
  const A4 := 14
  const A5 := 15

  /** What the interrupted M-mode code did between two interrupts, and interrupts that returned.
      A stretch of code leaves registers and a program counter, and has written to memory. */
  datatype Event =
    | Code(regs: seq<int>, pc: int, writes: map<int, int>)
    | SoftInt(cause: int, tval: int, regs: seq<int>, writes: map<int, int>)

  class Machine {
    const base: int       // hart_contexts
    const n: nat          // TOTAL_HART_COUNT
    const mhartid: nat
    const rv32: bool
    const globalPointer: int

    var x: seq<int>
    var pc: int
    var priv: int
    var mscratch: int
    var mepc: int
    var mcause: int       // without the interrupt bit
    var mtval: int
    var mie: bool
    var mpie: bool
    var mpp: int
    var mem: map<int, int>
    var scause: int
    var stval: int
    var sepc: int
    var stvec: int
    var sie: bool
    var spie: bool
    var spp: int

    constructor (base: int, n: nat, mhartid: nat, rv32: bool, globalPointer: int, mem: map<int, int>, frame: int)
      ensures this.base == base && this.n == n && this.mhartid == mhartid && this.rv32 == rv32
      ensures x == seq(32, i => 0) && this.mem == mem && mscratch == frame && priv == MODE_M && !mie
    {
      this.base, this.n, this.mhartid, this.rv32, this.globalPointer := base, n, mhartid, rv32, globalPointer;
      x, pc, priv, mscratch, mepc, mcause, mtval := seq(32, i => 0), 0, MODE_M, frame, 0, 0, 0;
      mie, mpie, mpp, this.mem := false, false, 0, mem;
      scause, stval, sepc, stvec, sie, spie, spp := 0, 0, 0, 0, false, false, 0;
    }

    // --- the frames --------------------------------------------------------------------------------

    function FrameAt(i: int): int { base + FRAME_WORDS * i }
    function IdleFrame(): int { FrameAt(mhartid) }
    function ExceptionFrame(): int { FrameAt(n + mhartid) }
    function UserFrame(): int { FrameAt(2 * n + mhartid) }

    function Mode(f: int): int { f + 1 }
    function Reg(f: int, k: int): int { f + 3 + k }

    /** The word at byte offset 8: execution_mode with 8-byte words, reserved_0 with 4-byte words. */
    function ModeTested(f: int): int { if rv32 then f + 2 else Mode(f) }

    predicate InFrame(f: int, a: int) { f <= a < f + FRAME_WORDS }
    predicate InContexts(a: int) { base <= a < base + FRAME_WORDS * (3 * n) }

    predicate IsFrame(f: int) {
      f == IdleFrame() || f == ExceptionFrame() || f == UserFrame()
    }

    /** The three frames of this hart, and that they lie apart from each other and from those of every other. */
    lemma FramesAre(f: int, k: nat)
      requires mhartid < n && k < 3 * n && IsFrame(f)
      ensures IdleFrame() == base + 35 * mhartid && ExceptionFrame() == base + 35 * (n + mhartid)
      ensures UserFrame() == base + 35 * (2 * n + mhartid) && FrameAt(k) == base + 35 * k
      ensures f == FrameAt(k) || f + 35 <= FrameAt(k) || FrameAt(k) + 35 <= f
      ensures IdleFrame() + 35 <= ExceptionFrame() && ExceptionFrame() + 35 <= UserFrame()
    {
    }

    /** The context array is there, and each hart finds itself in it. */
    ghost predicate Valid()
      reads this
    {
      && |x| == 32 && x[0] == 0 && mhartid < n
      && (forall a | InContexts(a) :: a in mem)
      && (forall i | 0 <= i < n :: FrameAt(i) in mem && mem[FrameAt(i)] == i)
    }

    // --- macros ---------------------------------------------------------------------------------------

    /** SAVE_REGS REG_S0 */
    method SaveRegs()
      requires Valid() && IsFrame(x[S0])
      modifies this`x, this`mem, this`mscratch
      ensures Valid() && mscratch == old(x[S0]) && x == old(x)[RA := old(mscratch)]
      ensures mem.Keys == old(mem.Keys)
      ensures forall k | 1 <= k < 32 :: mem[Reg(x[S0], k)] == if k == S0 then old(mscratch) else old(x[k])
      ensures forall a | a in mem && !(4 <= a - x[S0] < FRAME_WORDS) :: mem[a] == old(mem[a])
    {
      var k := 1;
      while k < 32
        invariant 1 <= k <= 32 && x == old(x) && mscratch == old(mscratch) && Valid()
        invariant mem.Keys == old(mem.Keys)
        invariant forall j | 1 <= j < k && j != S0 :: mem[Reg(x[S0], j)] == x[j]
        invariant forall a | a in mem && !(4 <= a - x[S0] < FRAME_WORDS) :: mem[a] == old(mem[a])
      {
        if k != S0 {
          mem := mem[Reg(x[S0], k) := x[k]];
        }
        k := k + 1;
      }
      var frame := x[S0];
      x, mscratch := x[RA := mscratch], frame;
      mem := mem[Reg(x[S0], S0) := x[RA]];
    }

    /** LOAD_REGS REG_A0 */
    method LoadRegs()
      requires Valid() && IsFrame(x[A0])
      modifies this`x
      ensures Valid() && forall k | 1 <= k < 32 :: x[k] == mem[Reg(old(x[A0]), k)]
    {
      var k := 1;
      while k < 32
        invariant 1 <= k <= 32 && Valid() && x[A0] == old(x[A0])
        invariant forall j | 1 <= j < k && j != A0 :: x[j] == mem[Reg(x[A0], j)]
      {
        if k != A0 {
          x := x[k := mem[Reg(x[A0], k)]];
        }
        k := k + 1;
      }
      x := x[A0 := mem[Reg(x[A0], A0)]];
    }

    // --- hardware -----------------------------------------------------------------------------------------

    method TakeTrap(cause: int, tval: int)
      modifies this`mepc, this`mcause, this`mtval, this`mie, this`mpie, this`mpp, this`priv
      ensures mepc == pc && mcause == cause && mtval == tval && !mie && mpie == old(mie)
      ensures mpp == old(priv) && priv == MODE_M
    {
      mepc, mcause, mtval := pc, cause, tval;
      mpie, mie := mie, false;
      mpp, priv := priv, MODE_M;
    }

    method Mret()
      modifies this`pc, this`priv, this`mie, this`mpie, this`mpp
      ensures pc == mepc && priv == old(mpp) && mie == old(mpie)
    {
      pc, priv, mie := mepc, mpp, mpie;
      mpie, mpp := true, 0;
    }

    // --- interrupt_entry_handler -------------------------------------------------------------------------------

    /** The search for this hart's own context: t1 ends at its idle frame, a5 at its offset. */
    method FindContext()
      requires Valid()
      modifies this`x
      ensures Valid() && x[T1] == IdleFrame() && x[A5] == FRAME_WORDS * mhartid
      ensures forall k | 0 <= k < 32 && k !in {T0, T1, T2, A3, A4, A5} :: x[k] == old(x[k])
    {
      x := x[T0 := mhartid][T1 := base][T2 := 3 * n][A3 := 0][A5 := 0];
      while x[T2] != x[A3]
        invariant |x| == 32 && x[0] == 0 && x[T0] == mhartid && x[T2] == 3 * n && 0 <= x[A3] <= mhartid
        invariant x[T1] == FrameAt(x[A3]) && x[A5] == FRAME_WORDS * x[A3]
        invariant forall k | 0 <= k < 32 && k !in {T0, T1, T2, A3, A4, A5} :: x[k] == old(x[k])
        decreases mhartid - x[A3]
      {
        x := x[A4 := mem[x[T1]]];
        if x[T0] == x[A4] {
          break;
        }
        x := x[T1 := x[T1] + FRAME_WORDS][A5 := x[A5] + FRAME_WORDS];
        x := x[A3 := x[A3] + 1];
      }
    }

    /** The first part of the handler: registers, program counter and mode go to the frame. */
    method SaveContext()
      requires Valid() && IsFrame(mscratch)
      modifies this`x, this`mem, this`mscratch
      ensures Valid() && mem.Keys == old(mem.Keys) && mscratch == old(mscratch) && x[S0] == x[A0] == mscratch
      ensures forall k | 1 <= k < 32 :: mem[Reg(mscratch, k)] == old(x[k])
      ensures mem[Reg(mscratch, 0)] == mepc && mem[Mode(mscratch)] == mpp
      ensures forall a | a in mem && !SavedWord(mscratch, a) :: mem[a] == old(mem[a])
    {
      var t := mscratch;
      mscratch := x[S0];
      x := x[S0 := t];
      SaveRegs();
      StorePcAndMode();
    }

    method StorePcAndMode()
      requires Valid() && IsFrame(x[S0])
      modifies this`x, this`mem
      ensures Valid() && mem == old(mem)[Reg(x[S0], 0) := mepc][Mode(x[S0]) := mpp] && x[S0] == x[A0] == old(x[S0])
    {
      x := x[A0 := x[S0]];
      x := x[A1 := mepc];
      mem := mem[Reg(x[A0], 0) := x[A1]];
      x := x[A1 := mpp];
      mem := mem[Mode(x[A0]) := x[A1]];
    }

    /** The words of a frame that a trap overwrites: all but context_id and reserved_0. */
    predicate SavedWord(f: int, a: int) {
      InFrame(f, a) && a != f && a != f + 2
    }

    /** The second part: arguments, stack and, for an exception, the second frame and interrupts. */
    method SetUpCall(interrupt: bool)
      requires Valid() && IsFrame(x[S0]) && x[S0] == x[A0] == mscratch && !mie
      modifies this`x, this`mscratch, this`mie
      ensures Valid() && x[S0] == x[A0] == old(mscratch) && x[A1] == mcause && x[A2] == mtval
      ensures x[SP] == mem[Reg(IdleFrame(), SP)] - (if interrupt then 0 else 0x800)
      ensures x[TP] == mem[Reg(IdleFrame(), TP)]
      ensures interrupt ==> !mie && mscratch == old(mscratch)
      ensures !interrupt ==> mscratch == ExceptionFrame()
      ensures !interrupt ==> (mie <==> mem[ModeTested(x[S0])] != MODE_M)
    {
      x := x[GP := globalPointer];
      x := x[A1 := mcause];
      x := x[RA := if interrupt then 1 else 0];
      FindContext();
      x := x[SP := mem[Reg(x[T1], SP)]];
      x := x[TP := mem[Reg(x[T1], TP)]];
      x := x[A2 := mtval];
      if x[RA] == 0 {
        EnableNesting();
      }
    }

    /** For an exception: a lower stack, the exception frame in mscratch, and interrupts on again. */
    method EnableNesting()
      requires Valid() && IsFrame(x[A0]) && x[A5] == FRAME_WORDS * mhartid && !mie
      modifies this`x, this`mscratch, this`mie
      ensures Valid() && x[SP] == old(x[SP]) - 0x800 && mscratch == ExceptionFrame()
      ensures forall k | 0 <= k < 32 && k != SP && k != A3 && k != A4 :: x[k] == old(x[k])
      ensures mie <==> mem[ModeTested(x[A0])] != MODE_M
    {
      x := x[SP := x[SP] - 0x800];
      x := x[A3 := FrameAt(n)];
      x := x[A3 := x[A3] + x[A5]];
      mscratch := x[A3];
      x := x[A3 := mem[ModeTested(x[A0])]];
      x := x[A4 := MODE_M];
      if x[A3] != x[A4] {
        mie := true;
      }
    }

    /** From the trap vector to the call of the C handler. */
    method Entry(interrupt: bool)
      requires Valid() && IsFrame(mscratch) && !mie
      modifies this`x, this`mem, this`mscratch, this`mie
      ensures Valid() && mem.Keys == old(mem.Keys)
      ensures forall k | 1 <= k < 32 :: mem[Reg(old(mscratch), k)] == old(x[k])
      ensures mem[Reg(old(mscratch), 0)] == mepc && mem[Mode(old(mscratch))] == mpp
      ensures forall a | a in mem && !SavedWord(old(mscratch), a) :: mem[a] == old(mem[a])
      ensures x[S0] == x[A0] == old(mscratch) && x[A1] == mcause && x[A2] == mtval
      ensures x[SP] == mem[Reg(IdleFrame(), SP)] - (if interrupt then 0 else 0x800)
      ensures x[TP] == mem[Reg(IdleFrame(), TP)]
      ensures interrupt ==> !mie && mscratch == old(mscratch)
      ensures !interrupt ==> mscratch == ExceptionFrame()
      ensures !interrupt ==> (mie <==> mem[ModeTested(old(mscratch))] != MODE_M)
    {
      SaveContext();
      SetUpCall(interrupt);
    }

    // --- switch_context --------------------------------------------------------------------------------------

    method SwitchContext()
      requires Valid() && IsFrame(x[A0])
      modifies this`x, this`pc, this`priv, this`mscratch, this`mepc, this`mie, this`mpie, this`mpp
      ensures Valid() && mie && mscratch == old(x[A0])
      ensures var f := old(x[A0]);
              pc == mem[Reg(f, 0)] && priv == mem[Mode(f)] % 4 && forall k | 1 <= k < 32 :: x[k] == mem[Reg(f, k)]
    {
      mie := false;
      x := x[A4 := mem[Mode(x[A0])]];
      x := x[A1 := mem[Reg(x[A0], 0)]];
      x := x[A4 := x[A4] % 4];
      mpie := true;
      mpp := x[A4];
      mscratch := x[A0];
      mepc := x[A1];
      LoadRegs();
      Mret();
    }

    // --- a software interrupt while an exception is being handled --------------------------------------------------

    /** Memory a C handler writes to: never the contexts, except that the exception handler may
        change the frame of the trapped program, which it is handed. */
    predicate OutsideContexts(writes: map<int, int>) {
      forall a <- writes :: !InContexts(a)
    }

    predicate HandlerWrites(writes: map<int, int>) {
      forall a <- writes :: InContexts(a) ==> InFrame(UserFrame(), a) && a != UserFrame()
    }

    /** The C handler has returned: s0 is callee-saved. */
    method InterruptRoundTrip(cause: int, tval: int, regs: seq<int>, writes: map<int, int>)
      requires Valid() && mie && priv == MODE_M && mscratch == ExceptionFrame()
      requires |regs| == 32 && regs[0] == 0 && regs[S0] == ExceptionFrame() && OutsideContexts(writes)
      modifies this
      ensures Valid() && mie && priv == MODE_M && mscratch == ExceptionFrame()
      ensures x == old(x) && pc == old(pc)
      ensures mem.Keys == old(mem.Keys) + writes.Keys
      ensures forall a | a in mem && !InFrame(ExceptionFrame(), a) :: mem[a] == (old(mem) + writes)[a]
    {
      TakeTrap(cause, tval);
      Entry(true);
      ReturnFromC(regs, writes);
      SwitchContext();
      assert x[0] == old(x[0]);
    }

    /** What a C handler of an interrupt leaves, and the mv that follows its return. */
    method ReturnFromC(regs: seq<int>, writes: map<int, int>)
      requires Valid() && |regs| == 32 && regs[0] == 0 && OutsideContexts(writes)
      modifies this`x, this`mem
      ensures Valid() && x[A0] == regs[S0] && mem == old(mem) + writes
      ensures forall a | InContexts(a) :: mem[a] == old(mem[a])
    {
      x, mem := regs, mem + writes;
      x := x[A0 := x[S0]];
    }

    // --- an exception with interrupts in between ------------------------------------------------------------------

    predicate EventOk(e: Event) {
      match e
      case Code(regs, _, writes) => |regs| == 32 && regs[0] == 0 && HandlerWrites(writes)
      case SoftInt(_, _, regs, writes) =>
        |regs| == 32 && regs[0] == 0 && regs[S0] == ExceptionFrame() && OutsideContexts(writes)
    }

    /** The registers the exception handler has after the events, and what it has written. */
    static function RegsAfter(regs: seq<int>, events: seq<Event>): seq<int> {
      if events == [] then regs
      else
        var e := events[|events| - 1];
        if e.Code? then e.regs else RegsAfter(regs, events[..|events| - 1])
    }

    static function PcAfter(pc: int, events: seq<Event>): int {
      if events == [] then pc
      else
        var e := events[|events| - 1];
        if e.Code? then e.pc else PcAfter(pc, events[..|events| - 1])
    }

    static function CodeWrites(m: map<int, int>, events: seq<Event>): map<int, int> {
      if events == [] then m
      else
        var e, before := events[|events| - 1], CodeWrites(m, events[..|events| - 1]);
        if e.Code? then before + e.writes else before
    }

    /** A word holds what the last stretch of code that wrote to it wrote, or else what it held before:
        i counts the events up to and with that stretch. */
    static lemma {:induction false} LastWrite(m: map<int, int>, events: seq<Event>, a: int, i: nat)
      requires i <= |events| && (i > 0 ==> events[i - 1].Code? && a in events[i - 1].writes)
      requires forall j | i <= j < |events| :: !(events[j].Code? && a in events[j].writes)
      ensures if i > 0 then a in CodeWrites(m, events) && CodeWrites(m, events)[a] == events[i - 1].writes[a]
              else (a in CodeWrites(m, events) <==> a in m) && (a in m ==> CodeWrites(m, events)[a] == m[a])
    {
      if i < |events| {
        LastWrite(m, events[..|events| - 1], a, i);
      }
    }

    /** The registers and the program counter are those of the last stretch of code. */
    static lemma {:induction false} LastCode(regs: seq<int>, pc: int, events: seq<Event>, i: nat)
      requires i <= |events| && (i > 0 ==> events[i - 1].Code?) && forall j | i <= j < |events| :: !events[j].Code?
      ensures RegsAfter(regs, events) == if i == 0 then regs else events[i - 1].regs
      ensures PcAfter(pc, events) == if i == 0 then pc else events[i - 1].pc
    {
      if i < |events| {
        LastCode(regs, pc, events[..|events| - 1], i);
      }
    }

    /** With interrupts disabled there are none. */
    predicate Possible(events: seq<Event>, enabled: bool) {
      enabled || forall e <- events :: e.Code?
    }

    /** The exception handler runs, interrupted at any points any number of times: it sees its own
        registers, and the frame of the trapped program is what the handler itself made of it. */
    method RunHandler(events: seq<Event>)
      requires Valid() && priv == MODE_M && mscratch == ExceptionFrame() && Possible(events, mie)
      requires forall e <- events :: EventOk(e)
      modifies this
      ensures Valid() && mie == old(mie) && priv == MODE_M && mscratch == ExceptionFrame()
      ensures x == RegsAfter(old(x), events) && pc == PcAfter(old(pc), events)
      ensures forall a | InFrame(UserFrame(), a) ::
                a in CodeWrites(old(mem), events) && mem[a] == CodeWrites(old(mem), events)[a]
    {
      var i := 0;
      while i < |events|
        invariant 0 <= i <= |events|
        invariant Valid() && mie == old(mie) && priv == MODE_M && mscratch == ExceptionFrame()
        invariant x == RegsAfter(old(x), events[..i]) && pc == PcAfter(old(pc), events[..i])
        invariant forall a | InFrame(UserFrame(), a) ::
                    a in CodeWrites(old(mem), events[..i]) && mem[a] == CodeWrites(old(mem), events[..i])[a]
      {
        var e := events[i];
        assert EventOk(e);
        assert events[..i + 1][..i] == events[..i];
        match e {
          case Code(regs, pc', writes) =>
            x, pc, mem := regs, pc', mem + writes;
          case SoftInt(cause, tval, regs, writes) =>
            InterruptRoundTrip(cause, tval, regs, writes);
        }
        i := i + 1;
      }
      assert events[..|events|] == events;
    }

    /** The handler's last stretch ends in its return, with s0 restored. */
    predicate Returns(e: Event) {
      EventOk(e) && e.Code? && e.regs[S0] == UserFrame()
    }

    /** An exception from S- or U-mode, handled with any interrupts in between, down to the mret: the
        program goes on with the registers, program counter and mode that the handler left in its
        frame, and mscratch points at the frame again. */
    method ExceptionRoundTrip(cause: int, tval: int, handler: int, events: seq<Event>)
      requires Valid() && (priv == 0 || priv == 1) && mscratch == UserFrame() && Possible(events, Nests())
      requires forall e <- events :: EventOk(e)
      requires events != [] && Returns(events[|events| - 1])
      modifies this
      ensures Valid() && mscratch == UserFrame() && mie
      ensures var left := CodeWrites(Saved(old(mem), old(x), old(pc), old(priv)), events);
              && (forall a | InFrame(UserFrame(), a) :: a in left)
              && (forall k | 1 <= k < 32 :: x[k] == left[Reg(UserFrame(), k)])
              && pc == left[Reg(UserFrame(), 0)] && priv == left[Mode(UserFrame())] % 4
    {
      ExceptionEntry(cause, tval, handler);
      SameFrameSameWrites(mem, Saved(old(mem), old(x), old(pc), old(priv)), events);
      RunHandler(events);
      x := x[A0 := x[S0]];
      SwitchContext();
    }

    /** A handler that leaves the frame alone. */
    predicate Spares(e: Event) {
      e.Code? ==> forall a <- e.writes :: !InFrame(UserFrame(), a)
    }

    lemma {:induction false} SparedFrame(m: map<int, int>, events: seq<Event>)
      requires forall e <- events :: Spares(e)
      requires forall a | InFrame(UserFrame(), a) :: a in m
      ensures forall a | InFrame(UserFrame(), a) :: a in CodeWrites(m, events) && CodeWrites(m, events)[a] == m[a]
    {
      if events != [] {
        assert Spares(events[|events| - 1]);
        SparedFrame(m, events[..|events| - 1]);
      }
    }

    /** With its frame left alone, the trapped program does not notice the exception or the interrupts. */
    method TransparentException(cause: int, tval: int, handler: int, events: seq<Event>)
      requires Valid() && (priv == 0 || priv == 1) && mscratch == UserFrame() && Possible(events, Nests())
      requires forall e <- events :: EventOk(e) && Spares(e)
      requires events != [] && Returns(events[|events| - 1])
      modifies this
      ensures Valid() && mscratch == UserFrame() && x == old(x) && pc == old(pc) && priv == old(priv)
    {
      ghost var saved := Saved(mem, x, pc, priv);
      SparedFrame(saved, events);
      ExceptionRoundTrip(cause, tval, handler, events);
      assert forall k | 1 <= k < 32 ::
          InFrame(UserFrame(), Reg(UserFrame(), k)) && saved[Reg(UserFrame(), k)] == old(x[k]);
    }

    // --- s_delegation_trampoline ------------------------------------------------------------------------------------

    /** The other way out of an exception: the kernel's own handler is entered in S-mode, with the
        trapped program's registers and the cause, value and origin that the handler was given. */
    method Delegate()
      requires Valid() && IsFrame(x[A0])
      modifies this
      ensures Valid() && mscratch == old(x[A0]) && mem == old(mem) && priv == 1
      ensures forall k | 1 <= k < 32 :: x[k] == mem[Reg(old(x[A0]), k)]
      ensures scause == old(x[A1]) && stval == old(x[A2]) && sepc == mem[Reg(old(x[A0]), 0)]
      ensures spp == mem[Mode(old(x[A0]))] % 2 && spie == old(sie) && !sie
      ensures pc % 4 == 0 && (old(x[A1]) >= 0 ==> pc == stvec - stvec % 4)
      ensures old(x[A1]) < 0 && stvec % 4 == 1 ==> pc == stvec - 1 + 4 * old(x[A1])
    {
      HandOver();
      FindKernelVector();
      EnterSupervisor();
    }

    /** mstatus is made to look as if S-mode had taken the trap. */
    method EnterSupervisor()
      requires Valid() && IsFrame(x[A0])
      modifies this`x, this`pc, this`priv, this`mie, this`mpie, this`mpp, this`spp, this`spie, this`sie
      ensures Valid() && pc == mepc && priv == 1 && forall k | 1 <= k < 32 :: x[k] == mem[Reg(old(x[A0]), k)]
      ensures spp == mem[Mode(old(x[A0]))] % 2 && spie == old(sie) && !sie
    {
      mpp, spp, spie, sie := 1, mem[Mode(x[A0])] % 2, sie, false;
      LoadRegs();
      Mret();
    }

    method HandOver()
      requires Valid() && IsFrame(x[A0])
      modifies this`mie, this`mscratch, this`scause, this`stval, this`sepc, this`x
      ensures Valid() && mscratch == old(x[A0]) && x[A0] == old(x[A0]) && x[A1] == old(x[A1])
      ensures scause == old(x[A1]) && stval == old(x[A2]) && sepc == mem[Reg(old(x[A0]), 0)]
    {
      mie := false;
      mscratch := x[A0];
      scause := x[A1];
      stval := x[A2];
      x := x[T0 := mem[Reg(x[A0], 0)]];
      sepc := x[T0];
    }

    method FindKernelVector()
      requires Valid()
      modifies this`x, this`mepc
      ensures Valid() && x[A0] == old(x[A0])
      ensures mepc % 4 == 0 && (old(x[A1]) >= 0 ==> mepc == stvec - stvec % 4)
      ensures old(x[A1]) < 0 && stvec % 4 == 1 ==> mepc == stvec - 1 + 4 * old(x[A1])
    {
      x := x[T0 := stvec][RA := 1][SP := stvec % 4];
      if x[RA] == x[SP] && x[A1] < 0 {
        x := x[T1 := 4 * x[A1]];
        x := x[T0 := x[T0] + x[T1]];
      }
      x := x[T0 := x[T0] - x[T0] % 4];
      mepc := x[T0];
    }

    /** Whether an exception from S- or U-mode enables interrupts: always, but for RV32, where the test of
        the interrupted mode reads reserved_0. */
    predicate Nests()
      requires Valid()
      reads this
    {
      rv32 ==> mem[UserFrame() + 2] != MODE_M
    }

    /** Down to the first instruction of the exception handler, which is given frame, cause and value. */
    method ExceptionEntry(cause: int, tval: int, handler: int)
      requires Valid() && (priv == 0 || priv == 1) && mscratch == UserFrame()
      modifies this
      ensures Valid() && mie == old(Nests()) && priv == MODE_M && mscratch == ExceptionFrame() && pc == handler
      ensures x[S0] == x[A0] == UserFrame() && x[A1] == cause && x[A2] == tval
      ensures var saved := Saved(old(mem), old(x), old(pc), old(priv));
              forall a | InFrame(UserFrame(), a) :: a in mem && a in saved && mem[a] == saved[a]
    {
      TakeTrap(cause, tval);
      Entry(false);
      pc := handler;
      FrameIsSaved(old(mem), mem, old(x), old(pc), old(priv));
    }

    lemma FrameIsSaved(m: map<int, int>, m': map<int, int>, regs: seq<int>, at: int, mode: int)
      requires |regs| == 32
      requires forall a | InFrame(UserFrame(), a) :: a in m && a in m'
      requires forall k | 1 <= k < 32 :: InFrame(UserFrame(), Reg(UserFrame(), k)) && m'[Reg(UserFrame(), k)] == regs[k]
      requires InFrame(UserFrame(), Reg(UserFrame(), 0)) && m'[Reg(UserFrame(), 0)] == at
      requires InFrame(UserFrame(), Mode(UserFrame())) && m'[Mode(UserFrame())] == mode
      requires InFrame(UserFrame(), UserFrame()) && m'[UserFrame()] == m[UserFrame()]
      requires InFrame(UserFrame(), UserFrame() + 2) && m'[UserFrame() + 2] == m[UserFrame() + 2]
      ensures var saved := Saved(m, regs, at, mode);
              forall a | InFrame(UserFrame(), a) :: a in saved && m'[a] == saved[a]
    {
      var saved := Saved(m, regs, at, mode);
      forall a | InFrame(UserFrame(), a) ensures a in saved && m'[a] == saved[a] {
        var k := a - UserFrame() - 3;
        assert k >= 0 ==> a == Reg(UserFrame(), k);
      }
    }

    /** The user frame as a trap saves it. */
    function Saved(m: map<int, int>, regs: seq<int>, at: int, mode: int): map<int, int>
      requires |regs| == 32
    {
      var frame := map k | 0 <= k < 32 :: Reg(UserFrame(), k) := (if k == 0 then at else regs[k]);
      m + frame + map[Mode(UserFrame()) := mode]
    }

    /** Where a trap saves: behind three words the program counter and then x1 to x31, and the mode in
        the second word. */
    lemma SavedWords(m: map<int, int>, regs: seq<int>, at: int, mode: int, k: nat)
      requires |regs| == 32 && 1 <= k < 32
      ensures var saved, f := Saved(m, regs, at, mode), base + 35 * (2 * n + mhartid);
              && f == UserFrame() && f + 3 + k == Reg(f, k) && f + 3 == Reg(f, 0) && f + 1 == Mode(f)
              && f + 3 + k in saved && saved[f + 3 + k] == regs[k]
              && f + 3 in saved && saved[f + 3] == at && f + 1 in saved && saved[f + 1] == mode
              && forall a | a in m && !(f <= a < f + 35 && a != f && a != f + 2) :: a in saved && saved[a] == m[a]
    {
      var f := UserFrame();
      assert f + 3 + k == Reg(f, k) && f + 3 == Reg(f, 0);
    }

    /** What the handler makes of a frame depends only on the frame it finds. */
    lemma {:induction false} SameFrameSameWrites(m: map<int, int>, m': map<int, int>, events: seq<Event>)
      requires forall a | InFrame(UserFrame(), a) :: a in m && a in m' && m[a] == m'[a]
      ensures forall a | InFrame(UserFrame(), a) ::
                a in CodeWrites(m, events) && a in CodeWrites(m', events)
                && CodeWrites(m, events)[a] == CodeWrites(m', events)[a]
    {
      if events != [] {
        SameFrameSameWrites(m, m', events[..|events| - 1]);
      }
    }
  }
}

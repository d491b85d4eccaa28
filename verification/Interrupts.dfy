/** An interrupt from the processor's pushes to iret: the gate, the entry stub, collect_ctx, the handler, and
    unwind_context, one after the other on one stack. */
module Interrupts {
  import opened Words
  import opened ContextFrame
  import opened Processor
  import opened ContextSwitch
  import T = Trampolines

  /** What every gate of the IDT selects, and the stack the TSS gives to it (boot.asm). */
  const KERNEL_CODE_SEGMENT: Half := 0x08
  const KERNEL_STACK: Word := 0x7C00

  /** The interrupted code runs at another privilege level, so the processor switches stacks. */
  predicate FromUser(c: Cpu) { c.cs % 4 != KERNEL_CODE_SEGMENT % 4 }

  /** The stack that the interrupt uses, below this address. */
  function StackTop(c: Cpu): Word { if FromUser(c) then KERNEL_STACK else c.esp }

  /** The stack pointer and segment, pushed only when the stack is switched. */
  function SwitchStack(c: Cpu, clears: bool): Cpu {
    if FromUser(c) then
      Push(PushSegment(c.(esp := KERNEL_STACK, ss := KERNEL_DATA_SEGMENT), c.ss, clears), c.esp)
    else c
  }

  /** The interrupt frame; iret takes it back. */
  function PushFrame(c: Cpu, clears: bool): Cpu {
    var s := SwitchStack(c, clears);
    Push(PushSegment(Push(s, c.eflags), c.cs, clears), c.eip)
  }

  /** What the processor does before the error code: the frame is pushed, and the gate is gone through. */
  function Deliver(c: Cpu, flags: Word, clears: bool): Cpu {
    PushFrame(c, clears).(cs := KERNEL_CODE_SEGMENT, eflags := flags)
  }

  /** From there on the kernel's stack is 4-aligned and has room. */
  predicate StackReady(c: Cpu) {
    StackTop(c) % 4 == 0 && StackTop(c) >= 160
  }

  /** The words of an interrupt frame at p, which ends at top. */
  ghost predicate FrameAt(m: Memory, p: int, top: int, c: Cpu)
    requires 0 <= p && p + 8 < WORD_LIMIT && (FromUser(c) ==> p + 16 < WORD_LIMIT)
  {
    && top == p + (if FromUser(c) then 20 else 12)
    && m(p) == c.eip && m(p + 4) % 0x1_0000 == c.cs && m(p + 8) == c.eflags
    && (FromUser(c) ==> m(p + 12) == c.esp && m(p + 16) % 0x1_0000 == c.ss)
  }

  lemma SwitchStackEffect(c: Cpu, clears: bool)
    requires StackReady(c)
    ensures var s := SwitchStack(c, clears);
            && s.esp == (if FromUser(c) then KERNEL_STACK - 8 else c.esp)
            && s == c.(esp := s.esp, ss := if FromUser(c) then 0x10 else c.ss, mem := s.mem)
            && (FromUser(c) ==> s.mem(s.esp) == c.esp && s.mem(s.esp + 4) % 0x1_0000 == c.ss)
            && SameFrom(c.mem, s.mem, StackTop(c))
  {
    if FromUser(c) {
      var k := c.(esp := KERNEL_STACK, ss := KERNEL_DATA_SEGMENT);
      PushSegmentEffect(k, c.ss, clears);
      PushEffect(PushSegment(k, c.ss, clears), c.esp);
    }
    hide Push, PushSegment;
  }

  /** The processor leaves a complete frame and changes nothing above it. */
  lemma DeliverEffect(c: Cpu, flags: Word, clears: bool)
    requires StackReady(c)
    ensures var f := Deliver(c, flags, clears);
            && f == c.(esp := f.esp, ss := f.ss, cs := KERNEL_CODE_SEGMENT, eflags := flags, mem := f.mem)
            && f.esp == StackTop(c) - (if FromUser(c) then 20 else 12) && f.ss == (if FromUser(c) then 0x10 else c.ss)
            && FrameAt(f.mem, f.esp, StackTop(c), c) && SameFrom(c.mem, f.mem, StackTop(c))
  {
    var s := SwitchStack(c, clears);
    SwitchStackEffect(c, clears);
    var s1 := Push(s, c.eflags);
    var s2 := PushSegment(s1, c.cs, clears);
    PushEffect(s, c.eflags);
    PushSegmentEffect(s1, c.cs, clears);
    PushEffect(s2, c.eip);
    hide Push, PushSegment, SwitchStack;
  }

  // ----- up to the handler -----

  /** What collect_ctx finds: the vector, one more word, and the frame. */
  ghost predicate Collecting(c: Cpu, vector: Byte, error: Word, s: Cpu) {
    && Room(s.esp) && s.esp + 8 == StackTop(c) - (if FromUser(c) then 20 else 12)
    && s == c.(eip := s.eip, cs := KERNEL_CODE_SEGMENT, ss := s.ss, eflags := s.eflags, esp := s.esp, mem := s.mem)
    && s.ss == (if FromUser(c) then 0x10 else c.ss)
    && s.mem(s.esp) == T.SignExtend(vector) && (PushesErrorCode(vector) ==> s.mem(s.esp + 4) == error)
    && FrameAt(s.mem, s.esp + 8, StackTop(c), c) && SameFrom(c.mem, s.mem, StackTop(c))
  }

  lemma ReachesCollect(c: Cpu, flags: Word, clears: bool, code: seq<Byte>, base: Word, collect: Word,
                       vector: Byte, error: Word) returns (s: Cpu)
    requires T.HoldsStubs(code, base, collect) && StackReady(c)
    ensures T.ExecuteMany(code, base, T.Enter(Deliver(c, flags, clears), vector, base, error),
                          T.StubLength(vector), clears) == Some(s)
    ensures s.eip == collect && Collecting(c, vector, error, s)
  {
    var f := Deliver(c, flags, clears);
    DeliverEffect(c, flags, clears);
    T.StubsReachCollect(code, base, collect, vector, f, error, clears);
    s := T.ExecuteMany(code, base, T.Enter(f, vector, base, error), T.StubLength(vector), clears).value;
    hide *;
    CollectsFrom(c, flags, f, vector, collect, error, s);
  }

  /** The two words pushed below the frame leave it as it is. */
  lemma CollectsFrom(c: Cpu, flags: Word, f: Cpu, vector: Byte, collect: Word, error: Word, s: Cpu)
    requires StackReady(c)
    requires f == c.(esp := f.esp, ss := f.ss, cs := KERNEL_CODE_SEGMENT, eflags := flags, mem := f.mem)
    requires f.esp == StackTop(c) - (if FromUser(c) then 20 else 12) && f.ss == (if FromUser(c) then 0x10 else c.ss)
    requires FrameAt(f.mem, f.esp, StackTop(c), c) && SameFrom(c.mem, f.mem, StackTop(c))
    requires s == f.(eip := collect, esp := f.esp - 8, mem := s.mem) && SameFrom(f.mem, s.mem, f.esp)
    requires s.mem(f.esp - 8) == T.SignExtend(vector)
    requires PushesErrorCode(vector) ==> s.mem(f.esp - 4) == error
    ensures Collecting(c, vector, error, s)
  {
    hide T.SignExtend, PushesErrorCode;
  }

  /** The handler is called in the kernel's segments, on an aligned stack, which ends at 0x7C00 if user mode was
      interrupted, with a Context that shows the vector, the error code if there is one, and every register of
      the interrupted code; nothing from the top of that stack on has changed. */
  lemma HandlerGetsInterrupt(c: Cpu, flags: Word, clears: bool, code: seq<Byte>, base: Word, collect: Word,
                             vector: Byte, error: Word, s: Cpu, collecting: seq<Instr>, d: Cpu)
    requires T.HoldsStubs(code, base, collect) && StackReady(c) && collecting == COLLECT
    requires T.ExecuteMany(code, base, T.Enter(Deliver(c, flags, clears), vector, base, error),
                           T.StubLength(vector), clears) == Some(s)
    requires d == Run(s, collecting, clears)
    ensures s.eip == collect && d.esp % 16 == 0 && d.esp < d.ebx && d.mem(d.esp) == d.ebx
    ensures d.cs == 0x08 && d.ds == d.es == d.fs == d.gs == 0x10
    ensures c.cs % 4 == 3 ==> d.ss == 0x10 && d.ebx == 0x7C00 - 76
    ensures var x := ReadIntraContext(d.mem, d.ebx);
            && x.context.vector == vector && (PushesErrorCode(vector) ==> x.context.errorCode == error)
            && Matches(c, x.context) && (FromUser(c) ==> Loaded(c, x))
    ensures SameFrom(c.mem, d.mem, StackTop(c))
  {
    var s' := ReachesCollect(c, flags, clears, code, base, collect, vector, error);
    HandlerSeesContext(s, clears, collecting, d);
    T.SignExtendLowByte(vector);
    KernelMode(c, vector, error, s);
    hide *;
    ContextShown(c, vector, error, s, d);
  }

  lemma KernelMode(c: Cpu, vector: Byte, error: Word, s: Cpu)
    requires Collecting(c, vector, error, s)
    ensures s.cs == 0x08 && (c.cs % 4 == 3 ==> s.ss == 0x10 && s.esp == 0x7C00 - 28)
  {
    hide FrameAt, T.SignExtend, PushesErrorCode;
  }

  lemma ContextShown(c: Cpu, vector: Byte, error: Word, s: Cpu, d: Cpu)
    requires Collecting(c, vector, error, s) && T.SignExtend(vector) % 256 == vector
    requires d.ebx == s.esp - 48 && ReadContext(d.mem, d.ebx) == ContextOf(s) && SameFrom(s.mem, d.mem, s.esp)
    ensures var x := ReadIntraContext(d.mem, d.ebx);
            && x.context.vector == vector && (PushesErrorCode(vector) ==> x.context.errorCode == error)
            && Matches(c, x.context) && (FromUser(c) ==> Loaded(c, x))
    ensures SameFrom(c.mem, d.mem, StackTop(c))
  {
    NoWrap();
    hide Wrap, ReadContext, T.SignExtend, PushesErrorCode;
  }

  // ----- and back -----

  /** iret takes back the frame. */
  lemma ReturnsToFrame(c: Cpu, u: Cpu)
    requires u.cs == KERNEL_CODE_SEGMENT && StackReady(c)
    requires u.esp == StackTop(c) - (if FromUser(c) then 20 else 12)
    requires FrameAt(u.mem, u.esp, StackTop(c), c) && SameRegisters(c, u) && (!FromUser(c) ==> u.ss == c.ss)
    ensures Return(u) == c.(mem := u.mem)
  {
    NoWrap();
    hide Wrap;
  }

  /** What follows the call of the handler. */
  const TO_THE_END := AFTER_CALL + [Iret]

  /** An interrupt is invisible to the code it interrupts, in user and in kernel mode, for every vector: if the
      handler returns and keeps the words that were pushed on entry, then after iret every register, the
      instruction pointer, stack and flags included, is as it was, and memory is as the handler left it. */
  lemma InterruptsAreInvisible(c: Cpu, flags: Word, clears: bool, code: seq<Byte>, base: Word, collect: Word,
                               vector: Byte, error: Word, s: Cpu, collecting: seq<Instr>, d: Cpu, e: Cpu,
                               after: seq<Instr>, r: Cpu)
    requires T.HoldsStubs(code, base, collect) && StackReady(c) && collecting == COLLECT && after == TO_THE_END
    requires T.ExecuteMany(code, base, T.Enter(Deliver(c, flags, clears), vector, base, error),
                           T.StubLength(vector), clears) == Some(s)
    requires d == Run(s, collecting, clears)
    requires HandlerReturns(d, e, StackTop(c))
    requires r == Run(e, after, clears)
    ensures r == c.(mem := e.mem)
  {
    var s' := ReachesCollect(c, flags, clears, code, base, collect, vector, error);
    RunConcat(e, AFTER_CALL, [Iret], clears);
    var u := Run(e, AFTER_CALL, clears);
    RunIret(u, clears);
    InterruptsRestoreEverything(s, clears, collecting, d, e, StackTop(c), AFTER_CALL, u);
    hide Run, AFTER_CALL, T.ExecuteMany, T.Enter, T.HoldsStubs, Deliver, Return;
    FrameKept(c, vector, error, s, u);
    ReturnsToFrame(c, u);
  }

  lemma FrameKept(c: Cpu, vector: Byte, error: Word, s: Cpu, u: Cpu)
    requires Collecting(c, vector, error, s) && StackReady(c)
    requires SameRegisters(s, u) && u.cs == s.cs && u.ss == s.ss && u.esp == s.esp + 8
    requires forall a: Word :: s.esp <= a < StackTop(c) ==> u.mem(a) == s.mem(a)
    ensures u.cs == KERNEL_CODE_SEGMENT && SameRegisters(c, u) && (!FromUser(c) ==> u.ss == c.ss)
    ensures u.esp == StackTop(c) - (if FromUser(c) then 20 else 12) && FrameAt(u.mem, u.esp, StackTop(c), c)
  {
  }
}

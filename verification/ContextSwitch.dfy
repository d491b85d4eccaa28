/** collect_ctx, unwind_context and restore_context (boot.asm), run instruction by instruction on a
    model of the registers and the stack. */
module ContextSwitch {
  import opened Words
  import opened ContextFrame
  import opened Processor
  import Trampolines

  // ----- the instructions -----

  datatype Segment = DS | ES | FS | GS

  datatype Instr =
    | PushSeg(s: Segment)
    | PopSeg(s: Segment)
    | Pusha
    | Popa
    | MovEbxEsp
    | LoadDataSegments
    | SubEsp4
    | AlignEsp
    | StoreEbxAtEsp
    | AddEsp8
    | MovEspEbx
    | MovEspArgument
    | Iret

  function Segments(c: Cpu, s: Segment): Half {
    match s case DS => c.ds case ES => c.es case FS => c.fs case GS => c.gs
  }

  function WithSegment(c: Cpu, s: Segment, h: Half): Cpu {
    match s case DS => c.(ds := h) case ES => c.(es := h) case FS => c.(fs := h) case GS => c.(gs := h)
  }

  /** pusha stores esp as it was before; popa skips it. */
  function PushAll(c: Cpu): Cpu {
    Push(Push(Push(Push(Push(Push(Push(Push(c, c.eax), c.ecx), c.edx), c.ebx), c.esp), c.ebp), c.esi), c.edi)
  }

  function PopAll(c: Cpu): Cpu {
    c.(edi := Top(c, 0), esi := Top(c, 1), ebp := Top(c, 2), ebx := Top(c, 4),
       edx := Top(c, 5), ecx := Top(c, 6), eax := Top(c, 7), esp := Wrap(c.esp + 32))
  }

  /** iret also takes the stack pointer and segment when it returns to another privilege level. */
  function Return(c: Cpu): Cpu {
    var d := c.(eip := Top(c, 0), cs := Top(c, 1) % 0x1_0000, eflags := Top(c, 2), esp := Wrap(c.esp + 12));
    if d.cs % 4 != c.cs % 4 then d.(esp := Top(c, 3), ss := Top(c, 4) % 0x1_0000) else d
  }

  function Execute(c: Cpu, i: Instr, clears: bool): Cpu {
    match i
    case PushSeg(s) => PushSegment(c, Segments(c, s), clears)
    case PopSeg(s) => WithSegment(c, s, Top(c, 0) % 0x1_0000).(esp := Wrap(c.esp + 4))
    case Pusha => PushAll(c)
    case Popa => PopAll(c)
    case MovEbxEsp => c.(ebx := c.esp)
    case LoadDataSegments =>
      c.(eax := KERNEL_DATA_SEGMENT, ds := KERNEL_DATA_SEGMENT, es := KERNEL_DATA_SEGMENT,
         fs := KERNEL_DATA_SEGMENT, gs := KERNEL_DATA_SEGMENT)
    case SubEsp4 => c.(esp := Wrap(c.esp - 4))
    case AlignEsp => c.(esp := c.esp / 16 * 16)
    case StoreEbxAtEsp => c.(mem := Write(c.mem, c.esp, c.ebx))
    case AddEsp8 => c.(esp := Wrap(c.esp + 8))
    case MovEspEbx => c.(esp := c.ebx)
    case MovEspArgument => c.(esp := Top(c, 1))
    case Iret => Return(c)
  }

  function Run(c: Cpu, program: seq<Instr>, clears: bool): Cpu
    decreases |program|
  {
    if program == [] then c else Run(Execute(c, program[0], clears), program[1..], clears)
  }

  // ----- the programs -----

  /** collect_ctx up to the call of the handler.  (cld changes nothing modelled here.) */
  const COLLECT := [
    PushSeg(DS), PushSeg(ES), PushSeg(FS), PushSeg(GS), Pusha, MovEbxEsp,
    LoadDataSegments, SubEsp4, AlignEsp, StoreEbxAtEsp]

  /** The Context structure at an address, as C reads it. */
  function ReadContext(m: Memory, p: Word): Context {
    Context(m(Wrap(p + 0)), m(Wrap(p + 4)), m(Wrap(p + 8)), m(Wrap(p + 12)),
            m(Wrap(p + 16)), m(Wrap(p + 20)), m(Wrap(p + 24)), m(Wrap(p + 28)),
            m(Wrap(p + 32)) % 0x1_0000, m(Wrap(p + 36)) % 0x1_0000, m(Wrap(p + 40)) % 0x1_0000,
            m(Wrap(p + 44)) % 0x1_0000, m(Wrap(p + 48)) % 0x100, m(Wrap(p + 52)), m(Wrap(p + 56)),
            m(Wrap(p + 60)) % 0x1_0000, m(Wrap(p + 64)))
  }

  function ReadIntraContext(m: Memory, p: Word): IntraContext {
    IntraContext(ReadContext(m, p), m(Wrap(p + 68)), m(Wrap(p + 72)) % 0x1_0000)
  }

  /** The stack has room below what was pushed, and the interrupt frame does not wrap. */
  predicate Room(esp: Word) {
    esp % 4 == 0 && 128 <= esp <= WORD_LIMIT - 20
  }

  /** A cdecl function called in state c has returned in state d: it kept ebx, and the words pushed on
      entry, which are the constant context it was given and lie below `top`.  Every other word, and every
      other register, may have changed. */
  ghost predicate HandlerReturns(c: Cpu, d: Cpu, top: int) {
    && d.ebx == c.ebx && d.cs == c.cs && d.ss == c.ss
    && forall a: Word :: c.ebx <= a < top ==> d.mem(a) == c.mem(a)
  }

  /** The registers a process owns. */
  ghost predicate SameRegisters(c: Cpu, d: Cpu) {
    && c.eax == d.eax && c.ecx == d.ecx && c.edx == d.edx && c.ebx == d.ebx
    && c.ebp == d.ebp && c.esi == d.esi && c.edi == d.edi
    && c.ds == d.ds && c.es == d.es && c.fs == d.fs && c.gs == d.gs
  }

  // ----- collecting -----

  lemma PushAllEffect(c: Cpu)
    requires c.esp >= 32
    ensures var d := PushAll(c);
            && d == c.(esp := c.esp - 32, mem := d.mem)
            && d.mem(c.esp - 32) == c.edi && d.mem(c.esp - 28) == c.esi && d.mem(c.esp - 24) == c.ebp
            && d.mem(c.esp - 20) == c.esp && d.mem(c.esp - 16) == c.ebx && d.mem(c.esp - 12) == c.edx
            && d.mem(c.esp - 8) == c.ecx && d.mem(c.esp - 4) == c.eax && SameFrom(c.mem, d.mem, c.esp)
  {
    var c1 := Push(c, c.eax);
    var c2 := Push(c1, c.ecx);
    var c3 := Push(c2, c.edx);
    var c4 := Push(c3, c.ebx);
    var c5 := Push(c4, c.esp);
    var c6 := Push(c5, c.ebp);
    var c7 := Push(c6, c.esi);
    PushEffect(c, c.eax);
    PushEffect(c1, c.ecx);
    PushEffect(c2, c.edx);
    PushEffect(c3, c.ebx);
    PushEffect(c4, c.esp);
    PushEffect(c5, c.ebp);
    PushEffect(c6, c.esi);
    PushEffect(c7, c.edi);
    assert PushAll(c) == Push(c7, c.edi);
    hide Push, PushAll;
  }

  function PushSegments(c: Cpu, clears: bool): Cpu {
    PushSegment(PushSegment(PushSegment(PushSegment(c, c.ds, clears), c.es, clears), c.fs, clears), c.gs, clears)
  }

  lemma PushSegmentsEffect(c: Cpu, clears: bool)
    requires c.esp >= 16
    ensures var d := PushSegments(c, clears);
            && d == c.(esp := c.esp - 16, mem := d.mem)
            && d.mem(c.esp - 16) % 0x1_0000 == c.gs && d.mem(c.esp - 12) % 0x1_0000 == c.fs
            && d.mem(c.esp - 8) % 0x1_0000 == c.es && d.mem(c.esp - 4) % 0x1_0000 == c.ds
            && SameFrom(c.mem, d.mem, c.esp)
  {
    var c1 := PushSegment(c, c.ds, clears);
    var c2 := PushSegment(c1, c.es, clears);
    var c3 := PushSegment(c2, c.fs, clears);
    PushSegmentEffect(c, c.ds, clears);
    PushSegmentEffect(c1, c.es, clears);
    PushSegmentEffect(c2, c.fs, clears);
    PushSegmentEffect(c3, c.gs, clears);
    assert PushSegments(c, clears) == PushSegment(c3, c.gs, clears);
    hide PushSegment, PushSegments;
  }

  /** What a Context should hold when the registers are those of c, which points to the words the entry
      stub and the processor pushed. */
  function ContextOf(c: Cpu): Context {
    Context(c.edi, c.esi, c.ebp, Wrap(c.esp - 16), c.ebx, c.edx, c.ecx, c.eax, c.gs, c.fs, c.es, c.ds,
            Top(c, 0) % 0x100, Top(c, 1), Top(c, 2), Top(c, 3) % 0x1_0000, Top(c, 4))
  }

  lemma AllPushed(c: Cpu, clears: bool)
    requires Room(c.esp)
    ensures var d := PushAll(PushSegments(c, clears));
            && d == c.(esp := c.esp - 48, mem := d.mem)
            && ReadContext(d.mem, d.esp) == ContextOf(c) && SameFrom(c.mem, d.mem, c.esp)
  {
    PushSegmentsEffect(c, clears);
    PushAllEffect(PushSegments(c, clears));
    hide PushSegments, PushAll, PushSegment, Push;
    PushedContext(c, PushSegments(c, clears).mem, PushAll(PushSegments(c, clears)).mem, c.esp - 48);
  }

  lemma PushedContext(c: Cpu, m4: Memory, m: Memory, p: Word)
    requires Room(c.esp) && p == c.esp - 48
    requires m(p) == c.edi && m(p + 4) == c.esi && m(p + 8) == c.ebp
    requires m(p + 12) == c.esp - 16 && m(p + 16) == c.ebx && m(p + 20) == c.edx
    requires m(p + 24) == c.ecx && m(p + 28) == c.eax && SameFrom(m4, m, p + 32)
    requires m4(p + 32) % 0x1_0000 == c.gs && m4(p + 36) % 0x1_0000 == c.fs
    requires m4(p + 40) % 0x1_0000 == c.es && m4(p + 44) % 0x1_0000 == c.ds
    requires SameFrom(c.mem, m4, c.esp)
    ensures ReadContext(m, p) == ContextOf(c)
  {
    NoWrap();
    hide Wrap;
  }

  /** Two memories that agree on the words of a Context hold the same one. */
  lemma ContextAgrees(m: Memory, m': Memory, p: Word)
    requires p <= WORD_LIMIT - 68 && forall a: Word :: p <= a < p + 68 ==> m'(a) == m(a)
    ensures ReadContext(m', p) == ReadContext(m, p)
  {
    NoWrap();
    hide Wrap;
  }

  /** The state in which collect_ctx calls the handler. */
  function AtCall(c: Cpu, clears: bool): Cpu {
    AtCallFrom(PushSegments(c, clears))
  }

  /** The same, once the segments are pushed. */
  function AtCallFrom(c4: Cpu): Cpu {
    var d := PushAll(c4);
    var e := d.(ebx := d.esp, eax := KERNEL_DATA_SEGMENT, ds := KERNEL_DATA_SEGMENT, es := KERNEL_DATA_SEGMENT,
                fs := KERNEL_DATA_SEGMENT, gs := KERNEL_DATA_SEGMENT, esp := Wrap(d.esp - 4) / 16 * 16);
    e.(mem := Write(e.mem, e.esp, e.ebx))
  }

  lemma RunStep(c: Cpu, program: seq<Instr>, clears: bool, i: Instr, rest: seq<Instr>)
    requires program == [i] + rest
    ensures Run(c, program, clears) == Run(Execute(c, i, clears), rest, clears)
  {
    assert program[1..] == rest;
  }

  lemma {:induction false} RunConcat(c: Cpu, a: seq<Instr>, b: seq<Instr>, clears: bool)
    ensures Run(c, a + b, clears) == Run(Run(c, a, clears), b, clears)
    decreases |a|
  {
    if a == [] {
      assert a + b == b;
    } else {
      assert (a + b)[1..] == a[1..] + b;
      RunConcat(Execute(c, a[0], clears), a[1..], b, clears);
    }
  }

  lemma RunOne(c: Cpu, i: Instr, clears: bool)
    ensures Run(c, [i], clears) == Execute(c, i, clears)
  {
    RunStep(c, [i], clears, i, []);
  }

  lemma RunTwo(c: Cpu, i: Instr, j: Instr, clears: bool)
    ensures Run(c, [i, j], clears) == Execute(Execute(c, i, clears), j, clears)
  {
    RunStep(c, [i, j], clears, i, [j]);
    RunOne(Execute(c, i, clears), j, clears);
    hide Execute;
  }

  lemma CollectRuns(c: Cpu, clears: bool, program: seq<Instr>)
    requires program == COLLECT
    ensures Run(c, program, clears) == AtCall(c, clears)
  {
    var a, b, d := [PushSeg(DS), PushSeg(ES)], [PushSeg(FS), PushSeg(GS)],
                   [Pusha, MovEbxEsp, LoadDataSegments, SubEsp4, AlignEsp, StoreEbxAtEsp];
    assert program == a + (b + d);
    RunSegments(c, clears, a, b);
    var c2 := Run(c, a, clears);
    var c4 := Run(c2, b, clears);
    RunConcat(c, a, b + d, clears);
    RunConcat(c2, b, d, clears);
    CollectTail(c4, clears, d);
    assert AtCall(c, clears) == AtCallFrom(c4);
    hide *;
  }

  lemma RunSegments(c: Cpu, clears: bool, a: seq<Instr>, b: seq<Instr>)
    requires a == [PushSeg(DS), PushSeg(ES)] && b == [PushSeg(FS), PushSeg(GS)]
    ensures Run(Run(c, a, clears), b, clears) == PushSegments(c, clears)
  {
    RunTwo(c, PushSeg(DS), PushSeg(ES), clears);
    var c2 := Execute(Execute(c, PushSeg(DS), clears), PushSeg(ES), clears);
    RunTwo(c2, PushSeg(FS), PushSeg(GS), clears);
    hide Run, SegmentWord, Wrap;
  }

  lemma CollectTail(c4: Cpu, clears: bool, tail: seq<Instr>)
    requires tail == [Pusha, MovEbxEsp, LoadDataSegments, SubEsp4, AlignEsp, StoreEbxAtEsp]
    ensures Run(c4, tail, clears) == AtCallFrom(c4)
  {
    var a, b := [Pusha, MovEbxEsp], [LoadDataSegments, SubEsp4, AlignEsp, StoreEbxAtEsp];
    assert tail == a + b;
    RunConcat(c4, a, b, clears);
    RunTwo(c4, Pusha, MovEbxEsp, clears);
    PushaThenMov(c4, clears);
    CallFrame(PushAll(c4).(ebx := PushAll(c4).esp), clears, b);
    hide Run, PushAll, Wrap, Write, Execute;
  }

  lemma PushaThenMov(c: Cpu, clears: bool)
    ensures Execute(Execute(c, Pusha, clears), MovEbxEsp, clears) == PushAll(c).(ebx := PushAll(c).esp)
  {
    hide PushAll;
  }

  /** The kernel's data segments, the aligned stack, and the argument of the call. */
  lemma CallFrame(c: Cpu, clears: bool, program: seq<Instr>)
    requires program == [LoadDataSegments, SubEsp4, AlignEsp, StoreEbxAtEsp]
    ensures var e := c.(eax := KERNEL_DATA_SEGMENT, ds := KERNEL_DATA_SEGMENT, es := KERNEL_DATA_SEGMENT,
                        fs := KERNEL_DATA_SEGMENT, gs := KERNEL_DATA_SEGMENT, esp := Wrap(c.esp - 4) / 16 * 16);
            Run(c, program, clears) == e.(mem := Write(e.mem, e.esp, e.ebx))
  {
    var a, b := [LoadDataSegments, SubEsp4], [AlignEsp, StoreEbxAtEsp];
    assert program == a + b;
    RunConcat(c, a, b, clears);
    RunTwo(c, LoadDataSegments, SubEsp4, clears);
    RunTwo(Run(c, a, clears), AlignEsp, StoreEbxAtEsp, clears);
    hide Run, Wrap, Write;
  }

  /** The handler is called with ebx, and the word at esp, pointing to a Context that holds every register
      as it was, the vector and error code, and the interrupt frame; esp is a multiple of 16. */
  lemma HandlerSeesContext(c: Cpu, clears: bool, collect: seq<Instr>, d: Cpu)
    requires Room(c.esp) && collect == COLLECT && d == Run(c, collect, clears)
    ensures d.ebx == c.esp - 48 && d.mem(d.esp) == d.ebx && d.esp % 16 == 0 && d.esp < d.ebx
    ensures d.cs == c.cs && d.ss == c.ss && d.ds == d.es == d.fs == d.gs == 0x10
    ensures ReadContext(d.mem, d.ebx) == ContextOf(c)
    ensures SameFrom(c.mem, d.mem, c.esp)
  {
    CollectRuns(c, clears, collect);
    AllPushed(c, clears);
    CallAligns(c, PushSegments(c, clears), d);
    hide *;
  }

  /** The aligned call frame lies below the Context. */
  lemma CallAligns(c: Cpu, c4: Cpu, d: Cpu)
    requires Room(c.esp) && d == AtCallFrom(c4)
    requires PushAll(c4) == c.(esp := c.esp - 48, mem := PushAll(c4).mem)
    requires ReadContext(PushAll(c4).mem, c.esp - 48) == ContextOf(c) && SameFrom(c.mem, PushAll(c4).mem, c.esp)
    ensures d.ebx == c.esp - 48 && d.mem(d.esp) == d.ebx && d.esp % 16 == 0 && d.esp < d.ebx
    ensures d.cs == c.cs && d.ss == c.ss && d.ds == d.es == d.fs == d.gs == 0x10
    ensures ReadContext(d.mem, d.ebx) == ContextOf(c)
    ensures SameFrom(c.mem, d.mem, c.esp)
  {
    var m := PushAll(c4).mem;
    NoWrap();
    hide PushAll, ContextOf, Wrap, ReadContext;
    var a: Word := (c.esp - 52) / 16 * 16;
    assert d == c.(ebx := c.esp - 48, eax := KERNEL_DATA_SEGMENT, ds := KERNEL_DATA_SEGMENT, es := KERNEL_DATA_SEGMENT,
                   fs := KERNEL_DATA_SEGMENT, gs := KERNEL_DATA_SEGMENT, esp := a, mem := Write(m, a, c.esp - 48));
    ContextAgrees(m, d.mem, d.ebx);
  }

  // ----- unwinding -----

  /** unwind_context up to iret. */
  const UNWIND_TO_IRET := [Popa, PopSeg(GS), PopSeg(FS), PopSeg(ES), PopSeg(DS), AddEsp8]

  /** The registers unwind_context takes from a Context at esp. */
  function Unwound(c: Cpu): Cpu {
    var x := ReadContext(c.mem, c.esp);
    c.(edi := x.edi, esi := x.esi, ebp := x.ebp, ebx := x.ebx, edx := x.edx, ecx := x.ecx, eax := x.eax,
       gs := x.gs, fs := x.fs, es := x.es, ds := x.ds, esp := Wrap(c.esp + 56))
  }

  lemma UnwindRuns(c: Cpu, clears: bool, unwind: seq<Instr>)
    requires unwind == UNWIND_TO_IRET
    ensures Run(c, unwind, clears) == Unwound(c)
  {
    var a, b, d := [Popa, PopSeg(GS)], [PopSeg(FS), PopSeg(ES)], [PopSeg(DS), AddEsp8];
    assert unwind == a + (b + d);
    RunConcat(c, a, b + d, clears);
    RunTwo(c, Popa, PopSeg(GS), clears);
    var c2 := Execute(Execute(c, Popa, clears), PopSeg(GS), clears);
    RunConcat(c2, b, d, clears);
    RunTwo(c2, PopSeg(FS), PopSeg(ES), clears);
    var c4 := Execute(Execute(c2, PopSeg(FS), clears), PopSeg(ES), clears);
    RunTwo(c4, PopSeg(DS), AddEsp8, clears);
    UnwindSteps(c, c2, c4, clears);
    hide *;
  }

  lemma UnwindSteps(c: Cpu, c2: Cpu, c4: Cpu, clears: bool)
    requires c2 == Execute(Execute(c, Popa, clears), PopSeg(GS), clears)
    requires c4 == Execute(Execute(c2, PopSeg(FS), clears), PopSeg(ES), clears)
    ensures Execute(Execute(c4, PopSeg(DS), clears), AddEsp8, clears) == Unwound(c)
  {
    UnwindFirst(c, clears);
    UnwindTwo(c2, PopSeg(FS), PopSeg(ES), clears);
    UnwindLast(c4, clears);
    hide Execute, Wrap;
    UnwindJoined(c, c2, c4);
  }

  lemma UnwindJoined(c: Cpu, c2: Cpu, c4: Cpu)
    requires c2 == PopAll(c).(gs := Top(c, 8) % 0x1_0000, esp := Wrap(c.esp + 36))
    requires c4 == c2.(fs := Top(c2, 0) % 0x1_0000, es := Top(c2, 1) % 0x1_0000, esp := Wrap(c2.esp + 8))
    ensures c4.(ds := Top(c4, 0) % 0x1_0000, esp := Wrap(c4.esp + 12)) == Unwound(c)
  {
    UnwindTops(c, c2, c4);
    UnwoundByTops(c);
    hide Top, Unwound, Wrap;
  }

  lemma UnwoundByTops(c: Cpu)
    ensures Unwound(c) ==
            PopAll(c).(gs := Top(c, 8) % 0x1_0000, fs := Top(c, 9) % 0x1_0000, es := Top(c, 10) % 0x1_0000,
                       ds := Top(c, 11) % 0x1_0000, esp := Wrap(c.esp + 56))
  {
    hide Wrap;
  }

  lemma UnwindTops(c: Cpu, c2: Cpu, c4: Cpu)
    requires c2.esp == Wrap(c.esp + 36) && c4.esp == Wrap(c2.esp + 8) && c2.mem == c4.mem == c.mem
    ensures Top(c2, 0) == Top(c, 9) && Top(c2, 1) == Top(c, 10) && Top(c4, 0) == Top(c, 11)
    ensures Wrap(c4.esp + 12) == Wrap(c.esp + 56)
  {
    WrapSum(c.esp, 36, 0);
    WrapSum(c.esp, 36, 4);
    WrapSum(c.esp, 36, 8);
    WrapSum(c.esp, 44, 0);
    WrapSum(c.esp, 44, 12);
    hide Wrap;
  }

  lemma UnwindFirst(c: Cpu, clears: bool)
    ensures Execute(Execute(c, Popa, clears), PopSeg(GS), clears) ==
            PopAll(c).(gs := Top(c, 8) % 0x1_0000, esp := Wrap(c.esp + 36))
  {
    WrapSum(c.esp, 32, 0);
    WrapSum(c.esp, 32, 4);
    hide Wrap;
  }

  lemma UnwindTwo(c: Cpu, i: Instr, j: Instr, clears: bool)
    requires i == PopSeg(FS) && j == PopSeg(ES)
    ensures Execute(Execute(c, i, clears), j, clears) ==
            c.(fs := Top(c, 0) % 0x1_0000, es := Top(c, 1) % 0x1_0000, esp := Wrap(c.esp + 8))
  {
    WrapSum(c.esp, 4, 0);
    WrapSum(c.esp, 4, 4);
    hide Wrap;
  }

  lemma UnwindLast(c: Cpu, clears: bool)
    ensures Execute(Execute(c, PopSeg(DS), clears), AddEsp8, clears) ==
            c.(ds := Top(c, 0) % 0x1_0000, esp := Wrap(c.esp + 12))
  {
    WrapSum(c.esp, 4, 8);
    hide Wrap;
  }

  /** What follows the call of the handler, up to iret. */
  const AFTER_CALL := [MovEspEbx] + UNWIND_TO_IRET

  lemma MovFromEbx(c: Cpu, clears: bool)
    ensures Execute(c, MovEspEbx, clears) == c.(esp := c.ebx)
  {
  }

  lemma AfterCallRuns(c: Cpu, clears: bool, unwind: seq<Instr>, program: seq<Instr>)
    requires unwind == UNWIND_TO_IRET && program == [MovEspEbx] + unwind
    ensures Run(c, program, clears) == Unwound(c.(esp := c.ebx))
  {
    RunStep(c, program, clears, MovEspEbx, unwind);
    MovFromEbx(c, clears);
    UnwindRuns(c.(esp := c.ebx), clears, unwind);
    hide *;
  }

  /** Whatever the handler does, as long as it keeps the words pushed on entry: after collect_ctx, the call
      and unwind_context up to iret, every general and segment register is as it was, esp is back at the
      frame the processor pushed, which is intact, and the rest of memory is as the handler left it. */
  lemma InterruptsRestoreEverything(c: Cpu, clears: bool, collect: seq<Instr>, d: Cpu, e: Cpu, top: int,
                                    after: seq<Instr>, r: Cpu)
    requires Room(c.esp) && c.esp + 20 <= top <= WORD_LIMIT && collect == COLLECT && after == AFTER_CALL
    requires d == Run(c, collect, clears) && HandlerReturns(d, e, top)
    requires r == Run(e, after, clears)
    ensures SameRegisters(c, r) && r.cs == c.cs && r.ss == c.ss && r.esp == c.esp + 8 && r.mem == e.mem
    ensures forall a: Word :: c.esp <= a < top ==> r.mem(a) == c.mem(a)
  {
    HandlerSeesContext(c, clears, collect, d);
    AfterCallRuns(e, clears, UNWIND_TO_IRET, after);
    ContextAgrees(d.mem, e.mem, d.ebx);
    RegistersFromContext(c, e.(esp := e.ebx), r);
    hide *;
  }

  lemma RegistersFromContext(c: Cpu, e: Cpu, r: Cpu)
    requires Room(c.esp) && e.esp == c.esp - 48 && r == Unwound(e)
    requires ReadContext(e.mem, e.esp) == ContextOf(c)
    ensures SameRegisters(c, r) && r.cs == e.cs && r.ss == e.ss && r.esp == c.esp + 8 && r.mem == e.mem
  {
    assert Wrap(e.esp + 56) == c.esp + 8;
    hide ReadContext, Wrap;
  }

  /** Every register but the stack pointer and segment is as the context says. */
  ghost predicate Matches(r: Cpu, x: Context) {
    && r.eip == x.eip && r.cs == x.cs && r.eflags == x.eflags
    && r.eax == x.eax && r.ecx == x.ecx && r.edx == x.edx && r.ebx == x.ebx
    && r.ebp == x.ebp && r.esi == x.esi && r.edi == x.edi
    && r.ds == x.ds && r.es == x.es && r.fs == x.fs && r.gs == x.gs
  }

  /** Every register is as the context says. */
  ghost predicate Loaded(r: Cpu, ic: IntraContext) {
    Matches(r, ic.context) && r.esp == ic.esp && r.ss == ic.ss
  }

  /** restore_context, whose argument points to the context. */
  const RESTORE := [MovEspArgument] + UNWIND_TO_IRET + [Iret]

  lemma RunIret(c: Cpu, clears: bool)
    ensures Run(c, [Iret], clears) == Return(c)
  {
    RunOne(c, Iret, clears);
    hide Run, Return;
  }

  /** Unwinding from a context at esp, and then iret. */
  lemma UnwindReturns(c: Cpu, clears: bool, unwind: seq<Instr>)
    requires unwind == UNWIND_TO_IRET
    ensures Run(c, unwind + [Iret], clears) == Return(Unwound(c))
  {
    RunConcat(c, unwind, [Iret], clears);
    UnwindRuns(c, clears, unwind);
    RunIret(Unwound(c), clears);
    hide *;
  }

  lemma RestoreRuns(c: Cpu, clears: bool, unwind: seq<Instr>, restore: seq<Instr>)
    requires unwind == UNWIND_TO_IRET && restore == [MovEspArgument] + (unwind + [Iret])
    ensures Run(c, restore, clears) == Return(Unwound(c.(esp := Top(c, 1))))
  {
    RunStep(c, restore, clears, MovEspArgument, unwind + [Iret]);
    MovArgument(c, clears);
    UnwindReturns(c.(esp := Top(c, 1)), clears, unwind);
    hide *;
  }

  lemma MovArgument(c: Cpu, clears: bool)
    ensures Execute(c, MovEspArgument, clears) == c.(esp := Top(c, 1))
  {
    hide Top;
  }

  /** restore_context takes a process to the instruction, stack and flags of the context its argument
      points to, with every register loaded from it. */
  lemma RestoreStartsProcess(c: Cpu, clears: bool, restore: seq<Instr>, r: Cpu)
    requires c.cs % 4 == 0 && restore == RESTORE
    requires ReadIntraContext(c.mem, Top(c, 1)).context.cs % 4 == 3
    requires r == Run(c, restore, clears)
    ensures Loaded(r, ReadIntraContext(c.mem, Top(c, 1))) && r.mem == c.mem
  {
    assert restore == [MovEspArgument] + (UNWIND_TO_IRET + [Iret]);
    RestoreRuns(c, clears, UNWIND_TO_IRET, restore);
    ReturnFromUnwound(c.(esp := Top(c, 1)), r);
    hide *;
  }

  lemma ReturnFromUnwound(c: Cpu, r: Cpu)
    requires c.cs % 4 == 0 && r == Return(Unwound(c))
    requires ReadIntraContext(c.mem, c.esp).context.cs % 4 == 3
    ensures Loaded(r, ReadIntraContext(c.mem, c.esp)) && r.mem == c.mem
  {
    WrapSum(c.esp, 56, 0);
    WrapSum(c.esp, 56, 4);
    WrapSum(c.esp, 56, 8);
    WrapSum(c.esp, 56, 12);
    WrapSum(c.esp, 56, 16);
    hide Wrap;
  }

  /** So a process that starts or restarts does so at its entry point, in user mode, at the top of its stack. */
  lemma FreshProcessStarts(c: Cpu, clears: bool, restore: seq<Instr>, r: Cpu, executable: Word)
    requires c.cs % 4 == 0 && restore == RESTORE
    requires EntersAt(ReadIntraContext(c.mem, Top(c, 1)), executable)
    requires r == Run(c, restore, clears)
    ensures r.eip == executable && r.cs == 0x1B && r.eflags == 0x202 && r.esp == 0x80_0000 && r.ss == 0x23
    ensures r.ds == r.es == r.fs == r.gs == 0x23
    ensures r.eax == r.ebx == r.ecx == r.edx == r.ebp == r.esi == r.edi == 0
  {
    RestoreStartsProcess(c, clears, restore, r);
    hide Run, Return;
  }

  /** The word an entry stub pushes for its vector is read back from the Context as that vector. */
  lemma HandlerGetsVector(c: Cpu, vector: Byte)
    requires Top(c, 0) == Trampolines.SignExtend(vector)
    ensures ContextOf(c).vector == vector
  {
    Trampolines.SignExtendLowByte(vector);
  }
}

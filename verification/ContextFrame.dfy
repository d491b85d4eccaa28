/** The saved register frame shared by the interrupt entry code and the process table
    (interrupts.h, process.h). */
module ContextFrame {
  import opened Words

  type Half = h: int | 0 <= h < 0x1_0000

  const KERNEL_DATA_SEGMENT: Half := 0x10
  const APP_CODE_SEGMENT: Half := 0x1B
  const APP_DATA_SEGMENT: Half := 0x23

  datatype Context = Context(
    edi: Word, esi: Word, ebp: Word, esp: Word, ebx: Word, edx: Word, ecx: Word, eax: Word,
    gs: Half, fs: Half, es: Half, ds: Half,
    vector: Byte, errorCode: Word, eip: Word, cs: Half, eflags: Word)

  /** A context that returns to another privilege level also carries a stack. */
  datatype IntraContext = IntraContext(context: Context, esp: Word, ss: Half)

  /** Loading this context enters user mode at an address, with the user segments, interrupts on, an empty stack
      that ends at 8 MiB, and zeros in the other registers. */
  ghost predicate EntersAt(ic: IntraContext, entry: Word) {
    var x := ic.context;
    && x.eip == entry && x.cs == 0x1B && x.eflags == 0x202 && ic.esp == 0x80_0000 && ic.ss == 0x23
    && x.ds == x.es == x.fs == x.gs == 0x23
    && x.eax == x.ebx == x.ecx == x.edx == x.ebp == x.esi == x.edi == 0
  }

  const STACK_TOP: Word := 0x80_0000

  /** The context switch_process builds for a process that starts or restarts. */
  function FreshContext(executable: Word): IntraContext {
    IntraContext(
      Context(0, 0, 0, 0, 0, 0, 0, 0,
              APP_DATA_SEGMENT, APP_DATA_SEGMENT, APP_DATA_SEGMENT, APP_DATA_SEGMENT,
              0, 0, executable, APP_CODE_SEGMENT, 0x202),
      STACK_TOP, APP_DATA_SEGMENT)
  }
}

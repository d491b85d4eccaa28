/** The registers and the stack of the processor, as far as the interrupt path uses them: shared by the
    entry stubs (Trampolines) and by collect_ctx and unwind_context (ContextSwitch). */
module Processor {
  import opened Words
  import opened ContextFrame

  /** Memory by word address: the kernel's stack is 4-aligned throughout. */
  type Memory = Word -> Word

  datatype Cpu = Cpu(
    eax: Word, ecx: Word, edx: Word, ebx: Word, esp: Word, ebp: Word, esi: Word, edi: Word,
    cs: Half, ss: Half, ds: Half, es: Half, fs: Half, gs: Half, eip: Word, eflags: Word, mem: Memory)

  /** The vectors for which the processor pushes an error code: double fault (8), invalid TSS (10), segment not
      present (11), stack fault (12), general protection (13), page fault (14), alignment check (17), control
      protection (21), and, on AMD processors, VMM communication (29) and security (30). */
  predicate PushesErrorCode(vector: Byte) {
    vector in [8, 10, 11, 12, 13, 14, 17, 21, 29, 30]
  }

  function Write(m: Memory, a: Word, w: Word): Memory {
    x => if x == a then w else m(x)
  }

  /** A word pushed for a segment register: whether or not the processor clears the upper half. */
  function SegmentWord(word: Word, s: Half, clears: bool): Word {
    if clears then s else word / 0x1_0000 * 0x1_0000 + s
  }

  function Push(c: Cpu, w: Word): Cpu {
    c.(esp := Wrap(c.esp - 4), mem := Write(c.mem, Wrap(c.esp - 4), w))
  }

  function PushSegment(c: Cpu, s: Half, clears: bool): Cpu {
    Push(c, SegmentWord(c.mem(Wrap(c.esp - 4)), s, clears))
  }

  /** The word n slots up the stack. */
  function Top(c: Cpu, n: nat): Word { c.mem(Wrap(c.esp + 4 * n)) }

  /** m' is m with words below `top` changed at most. */
  ghost predicate SameFrom(m: Memory, m': Memory, top: int) {
    forall a: Word :: a >= top ==> m'(a) == m(a)
  }

  lemma PushEffect(c: Cpu, w: Word)
    requires c.esp >= 4
    ensures Push(c, w) == c.(esp := c.esp - 4, mem := Push(c, w).mem)
    ensures Push(c, w).mem(c.esp - 4) == w && SameFrom(c.mem, Push(c, w).mem, c.esp)
  {
    assert Wrap(c.esp - 4) == c.esp - 4;
  }

  lemma PushSegmentEffect(c: Cpu, s: Half, clears: bool)
    requires c.esp >= 4
    ensures var d := PushSegment(c, s, clears);
            && d == c.(esp := c.esp - 4, mem := d.mem)
            && d.mem(c.esp - 4) % 0x1_0000 == s && SameFrom(c.mem, d.mem, c.esp)
  {
    PushEffect(c, SegmentWord(c.mem(Wrap(c.esp - 4)), s, clears));
  }

  lemma NoWrap()
    ensures forall x :: 0 <= x < WORD_LIMIT ==> Wrap(x) == x
  {
  }

  lemma WrapSum(p: Word, m: int, n: int)
    ensures Wrap(Wrap(p + m) + n) == Wrap(p + (m + n))
  {
  }
}

/** The interrupt entry stubs that generate_trampolines writes (interrupts.c), run by an interpreter of
    the three instructions they consist of. */
module Trampolines {
  import opened Words
  import opened Processor

  const TRAMPOLINE_COUNT := 256
  const TRAMPOLINE_SIZE := 8

  /** has_error_code: the exceptions for which the processor pushes an error code. */
  predicate HasErrorCode(vector: Byte) {
    vector == 0x08 || 0x0A <= vector <= 0x0E || vector == 0x11 || vector == 0x15 || vector == 0x1D || vector == 0x1E
  }

  /** The list of the code is that of the processor. */
  lemma ErrorCodesAgree(vector: Byte)
    ensures HasErrorCode(vector) <==> PushesErrorCode(vector)
  {
  }

  // ----- machine code -----

  function LittleEndian(w: Word): (b: seq<Byte>)
    ensures |b| == 4
  {
    [w % 256, w / 256 % 256, w / 256 / 256 % 256, w / 256 / 256 / 256]
  }

  function FromLittleEndian(b0: Byte, b1: Byte, b2: Byte, b3: Byte): Word {
    b0 + 256 * (b1 + 256 * (b2 + 256 * b3))
  }

  lemma LittleEndianRoundTrip(w: Word)
    ensures var b := LittleEndian(w); |b| == 4 && FromLittleEndian(b[0], b[1], b[2], b[3]) == w
  {
  }

  /** The byte at an address, for code loaded at base. */
  function Fetch(code: seq<Byte>, base: Word, address: int): Option<Byte> {
    var k := Wrap(address - base);
    if k < |code| then Some(code[k]) else None
  }

  /** push imm8 sign-extends its operand. */
  function SignExtend(b: Byte): Word { if b < 0x80 then b else WORD_LIMIT - 0x100 + b }

  /** push cs (0E), push imm8 (6A) and jmp rel32 (E9); anything else stops the interpreter. */
  function Execute(code: seq<Byte>, base: Word, c: Cpu, clears: bool): Option<Cpu> {
    match Fetch(code, base, c.eip)
    case None => None
    case Some(op) =>
      if op == 0x0E then Some(PushSegment(c, c.cs, clears).(eip := Wrap(c.eip + 1)))
      else if op == 0x6A then
        match Fetch(code, base, c.eip + 1)
        case None => None
        case Some(imm) => Some(Push(c, SignExtend(imm)).(eip := Wrap(c.eip + 2)))
      else if op == 0xE9 then
        var b0, b1 := Fetch(code, base, c.eip + 1), Fetch(code, base, c.eip + 2);
        var b2, b3 := Fetch(code, base, c.eip + 3), Fetch(code, base, c.eip + 4);
        if b0.None? || b1.None? || b2.None? || b3.None? then None
        else Some(c.(eip := Wrap(c.eip + 5 + FromLittleEndian(b0.value, b1.value, b2.value, b3.value))))
      else None
  }

  function ExecuteMany(code: seq<Byte>, base: Word, c: Cpu, n: nat, clears: bool): Option<Cpu>
    decreases n
  {
    if n == 0 then Some(c)
    else
      match Execute(code, base, c, clears)
      case None => None
      case Some(d) => ExecuteMany(code, base, d, n - 1, clears)
  }

  // ----- the stubs -----

  /** The displacement stored in a field at address `at`, relative to the end of the field. */
  function Displacement(collect: Word, at: int): Word { Wrap(collect - at - 4) }

  /** The bytes of the stub for one vector at an address; the eighth byte is unused after an error code. */
  function Stub(vector: Byte, address: int, collect: Word): seq<Byte> {
    if HasErrorCode(vector) then [0x6A, vector, 0xE9] + LittleEndian(Displacement(collect, address + 3))
    else [0x0E, 0x6A, vector, 0xE9] + LittleEndian(Displacement(collect, address + 4))
  }

  /** Every stub is where its vector says. */
  ghost predicate HoldsStubs(code: seq<Byte>, base: Word, collect: Word) {
    && |code| == TRAMPOLINE_COUNT * TRAMPOLINE_SIZE
    && forall v: Byte :: StubAt(code, v, base, collect)
  }

  ghost predicate StubAt(code: seq<Byte>, v: Byte, base: Word, collect: Word)
    requires |code| == TRAMPOLINE_COUNT * TRAMPOLINE_SIZE
  {
    var stub := Stub(v, base + 8 * v, collect);
    code[8 * v..8 * v + |stub|] == stub
  }

  /** The processor enters the stub of a vector, f being what it was after pushing the interrupt frame. */
  function Enter(f: Cpu, vector: Byte, base: Word, error: Word): Cpu {
    (if PushesErrorCode(vector) then Push(f, error) else f).(eip := Wrap(base + 8 * vector))
  }

  /** How many instructions a stub has. */
  function StubLength(vector: Byte): nat { if HasErrorCode(vector) then 2 else 3 }

  lemma FetchOffset(code: seq<Byte>, base: Word, k: nat)
    requires k < |code| < WORD_LIMIT
    ensures Fetch(code, base, base + k) == Some(code[k])
    ensures Fetch(code, base, Wrap(base + k)) == Some(code[k])
  {
    WrapOffset(base, k);
    hide Wrap;
  }

  lemma StubByte(code: seq<Byte>, base: Word, collect: Word, v: Byte, k: nat)
    requires HoldsStubs(code, base, collect) && k < |Stub(v, base + 8 * v, collect)|
    ensures |Stub(v, base + 8 * v, collect)| <= 8
    ensures code[8 * v + k] == Stub(v, base + 8 * v, collect)[k]
  {
    var stub := Stub(v, base + 8 * v, collect);
    assert StubAt(code, v, base, collect);
    assert code[8 * v..8 * v + |stub|][k] == code[8 * v + k];
  }

  lemma FetchStub(code: seq<Byte>, base: Word, collect: Word, v: Byte, k: nat)
    requires HoldsStubs(code, base, collect) && k < |Stub(v, base + 8 * v, collect)|
    ensures Fetch(code, base, base + 8 * v + k) == Some(Stub(v, base + 8 * v, collect)[k])
    ensures Fetch(code, base, Wrap(base + 8 * v + k)) == Some(Stub(v, base + 8 * v, collect)[k])
  {
    StubByte(code, base, collect, v, k);
    hide Stub, Wrap, Fetch, HoldsStubs;
    FetchOffset(code, base, 8 * v + k);
  }

  lemma WrapOffset(base: Word, k: nat)
    requires k < WORD_LIMIT
    ensures Wrap(base + k - base) == k && Wrap(Wrap(base + k) - base) == k
  {
    if base + k < WORD_LIMIT {
      assert Wrap(base + k) == base + k;
    } else {
      assert Wrap(base + k) == base + k - WORD_LIMIT;
      assert Wrap(k - WORD_LIMIT) == k;
    }
  }

  // ----- running a stub -----

  lemma WrapMultiple(w: Word, k: int)
    ensures Wrap(w + k * WORD_LIMIT) == w
  {
  }

  /** A relative jump lands on its target modulo 2^32, wherever the code is loaded. */
  lemma JumpLands(x: int, at: int, collect: Word)
    requires x + 5 == at + 4
    ensures Wrap(Wrap(x) + 5 + Displacement(collect, at)) == collect
  {
    var q, r := x / WORD_LIMIT, (collect - at - 4) / WORD_LIMIT;
    assert Wrap(x) == x - q * WORD_LIMIT;
    assert Displacement(collect, at) == collect - at - 4 - r * WORD_LIMIT;
    WrapMultiple(collect, -(q + r));
  }

  lemma WrapStep(x: int, n: int)
    ensures Wrap(Wrap(x) + n) == Wrap(x + n)
  {
    var q := x / WORD_LIMIT;
    assert Wrap(x) == x - q * WORD_LIMIT;
    var y := (x + n) / WORD_LIMIT;
    assert Wrap(x + n) == x + n - y * WORD_LIMIT;
    WrapMultiple(Wrap(x + n), y - q);
  }

  /** The push of the vector, at offset k of the stub. */
  lemma RunPush(code: seq<Byte>, base: Word, collect: Word, v: Byte, k: nat, c: Cpu, clears: bool)
    requires HoldsStubs(code, base, collect) && c.eip == Wrap(base + 8 * v + k)
    requires k == if HasErrorCode(v) then 0 else 1
    ensures Execute(code, base, c, clears) == Some(Push(c, SignExtend(v)).(eip := Wrap(base + 8 * v + k + 2)))
  {
    FetchStub(code, base, collect, v, k);
    FetchStub(code, base, collect, v, k + 1);
    FetchWrapped(code, base, base + 8 * v + k, 1);
    WrapStep(base + 8 * v + k, 2);
    hide Wrap, SignExtend, Push;
  }

  /** Fetching relative to a wrapped instruction pointer. */
  lemma FetchWrapped(code: seq<Byte>, base: Word, x: int, n: nat)
    ensures Fetch(code, base, Wrap(x) + n) == Fetch(code, base, x + n)
  {
    WrapStep(x, n - base);
  }

  /** The jump, at offset k of the stub. */
  lemma RunJump(code: seq<Byte>, base: Word, collect: Word, v: Byte, k: nat, c: Cpu, clears: bool)
    requires HoldsStubs(code, base, collect)
    requires k == if HasErrorCode(v) then 2 else 3
    requires c.eip == Wrap(base + 8 * v + k)
    ensures Execute(code, base, c, clears) == Some(c.(eip := collect))
  {
    var x := base + 8 * v + k;
    var d := Displacement(collect, x + 1);
    JumpIsThere(code, base, collect, v, k);
    ExecuteJump(code, base, c, LittleEndian(d), clears);
    LittleEndianRoundTrip(d);
    JumpLands(x, x + 1, collect);
    hide *;
  }

  lemma JumpIsThere(code: seq<Byte>, base: Word, collect: Word, v: Byte, k: nat)
    requires HoldsStubs(code, base, collect)
    requires k == if HasErrorCode(v) then 2 else 3
    ensures JumpAt(code, base, Wrap(base + 8 * v + k), LittleEndian(Displacement(collect, base + 8 * v + k + 1)))
  {
    JumpByte(code, base, collect, v, k, 0);
    JumpByte(code, base, collect, v, k, 1);
    JumpByte(code, base, collect, v, k, 2);
    JumpByte(code, base, collect, v, k, 3);
    JumpByte(code, base, collect, v, k, 4);
    hide Fetch, Wrap, Displacement, LittleEndian, HoldsStubs, HasErrorCode;
  }

  /** The jump instruction ends the stub. */
  lemma StubJump(v: Byte, address: int, collect: Word, k: nat)
    requires k == if HasErrorCode(v) then 2 else 3
    ensures var stub := Stub(v, address, collect);
            |stub| == k + 5 && stub[k..] == [0xE9] + LittleEndian(Displacement(collect, address + k + 1))
  {
    hide LittleEndian, Displacement;
  }

  lemma JumpByte(code: seq<Byte>, base: Word, collect: Word, v: Byte, k: nat, i: nat)
    requires HoldsStubs(code, base, collect) && i < 5
    requires k == if HasErrorCode(v) then 2 else 3
    ensures Fetch(code, base, Wrap(base + 8 * v + k) + i) ==
            Some(([0xE9] + LittleEndian(Displacement(collect, base + 8 * v + k + 1)))[i])
  {
    hide *;
    var x := base + 8 * v;
    StubJump(v, x, collect, k);
    assert Stub(v, x, collect)[k + i] == Stub(v, x, collect)[k..][i];
    FetchStub(code, base, collect, v, k + i);
    FetchWrapped(code, base, x + k, i);
  }

  ghost predicate JumpAt(code: seq<Byte>, base: Word, eip: Word, b: seq<Byte>)
    requires |b| == 4
  {
    && Fetch(code, base, eip) == Some(0xE9)
    && Fetch(code, base, eip + 1) == Some(b[0]) && Fetch(code, base, eip + 2) == Some(b[1])
    && Fetch(code, base, eip + 3) == Some(b[2]) && Fetch(code, base, eip + 4) == Some(b[3])
  }

  lemma ExecuteJump(code: seq<Byte>, base: Word, c: Cpu, b: seq<Byte>, clears: bool)
    requires |b| == 4 && JumpAt(code, base, c.eip, b)
    ensures Execute(code, base, c, clears) ==
            Some(c.(eip := Wrap(c.eip + 5 + FromLittleEndian(b[0], b[1], b[2], b[3]))))
  {
    hide Fetch, Wrap, FromLittleEndian;
  }

  lemma RunFirst(code: seq<Byte>, base: Word, collect: Word, v: Byte, c: Cpu, clears: bool)
    requires HoldsStubs(code, base, collect) && !HasErrorCode(v) && c.eip == Wrap(base + 8 * v)
    ensures Execute(code, base, c, clears) == Some(PushSegment(c, c.cs, clears).(eip := Wrap(base + 8 * v + 1)))
  {
    FetchStub(code, base, collect, v, 0);
    WrapStep(base + 8 * v, 1);
    hide Wrap, PushSegment;
  }

  /** What a stub does: two words are below the interrupt frame, and collect_ctx is next. */
  function AtCollect(f: Cpu, v: Byte, collect: Word, error: Word, clears: bool): Cpu {
    Push(if HasErrorCode(v) then Push(f, error) else PushSegment(f, f.cs, clears), SignExtend(v)).(eip := collect)
  }

  /** For every vector and every load address the stub reaches collect_ctx, and the stack then has the
      same shape whether or not the processor pushed an error code: the vector in the low byte of the
      top word, one word (the error code, or the kernel code segment), and the interrupt frame. */
  lemma StubsReachCollect(code: seq<Byte>, base: Word, collect: Word, v: Byte, f: Cpu, error: Word, clears: bool)
    requires HoldsStubs(code, base, collect) && f.esp >= 8
    ensures var r := ExecuteMany(code, base, Enter(f, v, base, error), StubLength(v), clears);
            && r.Some? && r.value == f.(eip := collect, esp := f.esp - 8, mem := r.value.mem)
            && r.value.mem(f.esp - 8) == SignExtend(v) && SignExtend(v) % 256 == v
            && (if PushesErrorCode(v) then r.value.mem(f.esp - 4) == error
                else r.value.mem(f.esp - 4) % 0x1_0000 == f.cs)
            && SameFrom(f.mem, r.value.mem, f.esp)
  {
    ErrorCodesAgree(v);
    StubRuns(code, base, collect, v, f, error, clears);
    CollectShape(f, v, collect, error, clears);
    SignExtendLowByte(v);
    hide *;
  }

  lemma StubRuns(code: seq<Byte>, base: Word, collect: Word, v: Byte, f: Cpu, error: Word, clears: bool)
    requires HoldsStubs(code, base, collect)
    ensures ExecuteMany(code, base, Enter(f, v, base, error), StubLength(v), clears) ==
            Some(AtCollect(f, v, collect, error, clears))
  {
    var c := Enter(f, v, base, error);
    ErrorCodesAgree(v);
    if HasErrorCode(v) {
      var d := Push(c, SignExtend(v)).(eip := Wrap(base + 8 * v + 2));
      RunPush(code, base, collect, v, 0, c, clears);
      RunJump(code, base, collect, v, 2, d, clears);
      ExecuteTwo(code, base, c, d, d.(eip := collect), clears);
    } else {
      var d := PushSegment(c, c.cs, clears).(eip := Wrap(base + 8 * v + 1));
      var e := Push(d, SignExtend(v)).(eip := Wrap(base + 8 * v + 3));
      RunFirst(code, base, collect, v, c, clears);
      RunPush(code, base, collect, v, 1, d, clears);
      RunJump(code, base, collect, v, 3, e, clears);
      ExecuteThree(code, base, c, d, e, e.(eip := collect), clears);
    }
    hide ExecuteMany, Execute, HoldsStubs, Wrap, SignExtend, SegmentWord, HasErrorCode, PushesErrorCode;
  }

  lemma CollectShape(f: Cpu, v: Byte, collect: Word, error: Word, clears: bool)
    requires f.esp >= 8
    ensures var r := AtCollect(f, v, collect, error, clears);
            && r == f.(eip := collect, esp := f.esp - 8, mem := r.mem)
            && r.mem(f.esp - 8) == SignExtend(v)
            && (if HasErrorCode(v) then r.mem(f.esp - 4) == error else r.mem(f.esp - 4) % 0x1_0000 == f.cs)
            && SameFrom(f.mem, r.mem, f.esp)
  {
    PushEffect(f, error);
    PushSegmentEffect(f, f.cs, clears);
    var d := if HasErrorCode(v) then Push(f, error) else PushSegment(f, f.cs, clears);
    PushEffect(d, SignExtend(v));
    hide Push, PushSegment, SignExtend, HasErrorCode;
  }

  lemma SignExtendLowByte(v: Byte)
    ensures SignExtend(v) % 256 == v
  {
  }

  lemma ExecuteTwo(code: seq<Byte>, base: Word, c: Cpu, d: Cpu, e: Cpu, clears: bool)
    requires Execute(code, base, c, clears) == Some(d) && Execute(code, base, d, clears) == Some(e)
    ensures ExecuteMany(code, base, c, 2, clears) == Some(e)
  {
    hide Execute;
    assert ExecuteMany(code, base, e, 0, clears) == Some(e);
    assert ExecuteMany(code, base, d, 1, clears) == Some(e);
  }

  lemma ExecuteThree(code: seq<Byte>, base: Word, c: Cpu, d: Cpu, e: Cpu, f: Cpu, clears: bool)
    requires Execute(code, base, c, clears) == Some(d) && Execute(code, base, d, clears) == Some(e)
    requires Execute(code, base, e, clears) == Some(f)
    ensures ExecuteMany(code, base, c, 3, clears) == Some(f)
  {
    hide Execute;
    ExecuteTwo(code, base, d, e, f, clears);
  }

  // ----- writing the stubs -----

  /** generate_trampolines, over an arena of any contents at the address base. */
  method GenerateTrampolines(code: array<Byte>, base: Word, collect: Word)
    requires code.Length == TRAMPOLINE_COUNT * TRAMPOLINE_SIZE
    modifies code
    ensures HoldsStubs(code[..], base, collect)
  {
    var trampoline := 0;
    for vector := 0 to TRAMPOLINE_COUNT
      invariant trampoline == 8 * vector
      invariant forall v: Byte :: v < vector ==> StubAt(code[..], v, base, collect)
    {
      ghost var before := code[..];
      trampoline := WriteStub(code, trampoline, vector, base, collect);
      forall v: Byte | v < vector ensures StubAt(code[..], v, base, collect) {
        StubKept(before, v, base, collect, vector, Stub(vector, base + 8 * vector, collect));
      }
    }
  }

  /** What comes before the displacement in a stub. */
  function Head(vector: Byte): seq<Byte> {
    if HasErrorCode(vector) then [0x6A, vector, 0xE9] else [0x0E, 0x6A, vector, 0xE9]
  }

  /** s with the bytes of w from index `at` on. */
  function Patch(s: seq<Byte>, at: nat, w: seq<Byte>): seq<Byte>
    requires at + |w| <= |s|
  {
    s[..at] + w + s[at + |w|..]
  }

  /** One turn of the loop: the stub is written through the advancing pointer, and no other byte. */
  method WriteStub(code: array<Byte>, start: nat, vector: Byte, base: Word, collect: Word) returns (trampoline: nat)
    requires code.Length == TRAMPOLINE_COUNT * TRAMPOLINE_SIZE && start == 8 * vector
    modifies code
    ensures trampoline == start + 8
    ensures StubAt(code[..], vector, base, collect)
    ensures code[..] == Patch(old(code[..]), start, Stub(vector, base + 8 * vector, collect))
  {
    hide *;
    StubWritten(code[..], start, vector, base, collect);
    var f := HasErrorCode(vector);
    trampoline := WriteHead(code, start, vector);
    var rel := LittleEndian(Displacement(collect, base + trampoline));
    StoreWord(code, trampoline, rel);
    trampoline := trampoline + 4;
    trampoline := trampoline + (if f then 1 else 0);
  }

  /** Head and displacement, patched in one after the other, are the stub. */
  lemma StubWritten(code: seq<Byte>, start: nat, vector: Byte, base: Word, collect: Word)
    requires |code| == TRAMPOLINE_COUNT * TRAMPOLINE_SIZE && start == 8 * vector
    ensures start + 8 <= |code|
    ensures |Head(vector)| == (if HasErrorCode(vector) then 3 else 4) && |Stub(vector, base + 8 * vector, collect)| <= 8
    ensures var stub, rel := Stub(vector, base + 8 * vector, collect),
                             LittleEndian(Displacement(collect, base + start + |Head(vector)|));
            && Patch(Patch(code, start, Head(vector)), start + |Head(vector)|, rel) == Patch(code, start, stub)
            && StubAt(Patch(code, start, stub), vector, base, collect)
  {
    var stub, rel := Stub(vector, base + 8 * vector, collect),
                     LittleEndian(Displacement(collect, base + start + |Head(vector)|));
    assert stub == Head(vector) + rel && |Head(vector)| == if HasErrorCode(vector) then 3 else 4;
    hide Stub, Head, LittleEndian, Displacement, HasErrorCode;
    PatchTwice(code, start, Head(vector), rel);
    assert Patch(code, start, stub)[start..start + |stub|] == stub;
  }

  lemma PatchTwice(s: seq<Byte>, at: nat, a: seq<Byte>, b: seq<Byte>)
    requires at + |a| + |b| <= |s|
    ensures Patch(Patch(s, at, a), at + |a|, b) == Patch(s, at, a + b)
  {
  }

  /** push cs where no error code was pushed, push of the vector, and the jump opcode. */
  method WriteHead(code: array<Byte>, start: nat, vector: Byte) returns (trampoline: nat)
    requires start + 4 <= code.Length
    modifies code
    ensures trampoline == start + |Head(vector)| <= start + 4
    ensures code[..] == Patch(old(code[..]), start, Head(vector))
  {
    trampoline := start;
    if !HasErrorCode(vector) {
      code[trampoline] := 0x0E;
      trampoline := trampoline + 1;
    }
    code[trampoline] := 0x6A;
    trampoline := trampoline + 1;
    code[trampoline] := vector;
    trampoline := trampoline + 1;
    code[trampoline] := 0xE9;
    trampoline := trampoline + 1;
  }

  /** The unaligned 32-bit store. */
  method StoreWord(code: array<Byte>, at: nat, w: seq<Byte>)
    requires |w| == 4 && at + 4 <= code.Length
    modifies code
    ensures code[..] == Patch(old(code[..]), at, w)
  {
    code[at], code[at + 1], code[at + 2], code[at + 3] := w[0], w[1], w[2], w[3];
  }

  /** Writing further up keeps the stubs below. */
  lemma StubKept(a: seq<Byte>, v: Byte, base: Word, collect: Word, vector: Byte, w: seq<Byte>)
    requires |a| == TRAMPOLINE_COUNT * TRAMPOLINE_SIZE && v < vector && |w| <= 8
    requires StubAt(a, v, base, collect)
    ensures StubAt(Patch(a, 8 * vector, w), v, base, collect)
  {
    var n := |Stub(v, base + 8 * v, collect)|;
    assert a[8 * v..8 * v + n] == Patch(a, 8 * vector, w)[8 * v..8 * v + n];
  }
}

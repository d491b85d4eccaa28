/** Two-level page tables (paging.c) and what the processor makes of them
    (Intel SDM Vol. 3A, section 4.3, 32-bit paging with CR4.PSE set). */
module Paging {
  import opened Words
  import opened Frames

  // ----- entries -----

  predicate Present(w: Word) { w % 2 == 1 }

  predicate Writable(w: Word) { w / 2 % 2 == 1 }

  predicate User(w: Word) { w / 4 % 2 == 1 }

  predicate LargePage(w: Word) { w / 128 % 2 == 1 }

  /** A present entry for frame f; every other attribute bit is clear. */
  function Entry(f: FrameNo, writable: bool, user: bool): Word {
    f * 4096 + (if user then 4 else 0) + (if writable then 2 else 0) + 1
  }

  lemma SumOfEven(a: int, b: int)
    ensures (2 * a + b) % 2 == b % 2
  {
  }

  /** Bits 0, 1, 2 and 7, and the frame, of a word with these low bits. */
  lemma EntryBits(f: FrameNo, low: int)
    requires 0 <= low < 8
    ensures var e := f * 4096 + low;
            && e % 2 == low % 2 && e / 2 % 2 == low / 2 % 2 && e / 4 % 2 == low / 4 && e / 128 % 2 == 0
            && e / 4096 == f
  {
    var e := f * 4096 + low;
    assert e / 4096 == f && e / 128 == 2 * (16 * f) + 0;
    assert e / 4 == 2 * (512 * f) + low / 4 && e / 2 == 2 * (1024 * f) + low / 2;
    SumOfEven(2048 * f, low);
    SumOfEven(1024 * f, low / 2);
    SumOfEven(512 * f, low / 4);
    SumOfEven(16 * f, 0);
  }

  lemma EntryFields(f: FrameNo, writable: bool, user: bool)
    ensures var e := Entry(f, writable, user);
            && Present(e) && Writable(e) == writable && User(e) == user && !LargePage(e)
            && FrameOf(e) == f
            && e == 4096 * f + if writable && user then 7 else if user then 5 else if writable then 3 else 1
  {
    EntryBits(f, 1);
    EntryBits(f, 3);
    EntryBits(f, 5);
    EntryBits(f, 7);
    assert Entry(f, writable, user) ==
           f * 4096 + (if user then if writable then 7 else 5 else if writable then 3 else 1);
  }

  // ----- translation -----

  datatype Mapping = Mapping(physical: Word, writable: bool, user: bool)

  function DirectorySlot(va: Word): Slot { va / 0x40_0000 }

  function TableSlot(va: Word): Slot { va / 4096 % 1024 }

  /** The processor's walk: rights are those granted at both levels. */
  function Translate(m: Memory, pdt: FrameNo, va: Word): Option<Mapping> {
    var pde := m[pdt][DirectorySlot(va)];
    if !Present(pde) then None
    else if LargePage(pde) then
      Some(Mapping(pde / 0x40_0000 * 0x40_0000 + va % 0x40_0000, Writable(pde), User(pde)))
    else
      var pte := m[FrameOf(pde)][TableSlot(va)];
      if !Present(pte) then None
      else Some(Mapping(pte / 4096 * 4096 + va % 4096, Writable(pde) && Writable(pte), User(pde) && User(pte)))
  }

  /** A user-mode access to va does not fault. */
  predicate UserAccess(m: Memory, pdt: FrameNo, va: Word, write: bool) {
    match Translate(m, pdt, va)
    case None => false
    case Some(t) => t.user && (write ==> t.writable)
  }

  /** A table walk bit by bit: the directory entry is word va / 0x400000 of the directory, the table entry word
      va / 4096 % 1024 of the table; bit 0 is the present bit, bit 1 allows writing, bit 2 user mode, and both
      entries must allow the access. */
  lemma WalkBits(m: Memory, pdt: FrameNo, va: Word, write: bool)
    requires m[pdt][va / 0x40_0000] / 128 % 2 == 0
    ensures var pde := m[pdt][va / 0x40_0000];
            var pte := m[pde / 4096][va / 4096 % 1024];
            && (Translate(m, pdt, va).Some? <==> pde % 2 == 1 && pte % 2 == 1)
            && (pde % 2 == 1 && pte % 2 == 1 ==> Translate(m, pdt, va).value.physical == pte / 4096 * 4096 + va % 4096)
            && (UserAccess(m, pdt, va, write) <==>
                  && pde % 2 == 1 && pte % 2 == 1 && pde / 4 % 2 == 1 && pte / 4 % 2 == 1
                  && (write ==> pde / 2 % 2 == 1 && pte / 2 % 2 == 1))
  {
    assert DirectorySlot(va) == va / 0x40_0000 && TableSlot(va) == va / 4096 % 1024;
  }

  // ----- the frames of an address space -----

  /** The frames named by the first n entries of a page table, in table order. */
  function Leaves(m: Memory, pt: FrameNo, n: nat): seq<FrameNo>
    requires n <= 1024
  {
    if n == 0 then []
    else Leaves(m, pt, n - 1) + if Present(m[pt][n - 1]) then [FrameOf(m[pt][n - 1])] else []
  }

  predicate IsTableEntry(e: Word) { Present(e) && !LargePage(e) }

  /** The leaf frames and then the table itself, for each table in directory slots 1 to n-1. */
  function Walk(m: Memory, pdt: FrameNo, n: nat): seq<FrameNo>
    requires n <= 1024
  {
    if n <= 1 then []
    else
      var e := m[pdt][n - 1];
      Walk(m, pdt, n - 1) + if IsTableEntry(e) then Leaves(m, FrameOf(e), 1024) + [FrameOf(e)] else []
  }

  lemma {:induction false} LeavesMember(m: Memory, pt: FrameNo, n: nat, f: FrameNo)
    requires n <= 1024
    ensures f in Leaves(m, pt, n) <==> exists j: Slot :: j < n && Present(m[pt][j]) && FrameOf(m[pt][j]) == f
  {
    if n > 0 {
      LeavesMember(m, pt, n - 1, f);
    }
  }

  lemma {:induction false} LeavesPrefix(m: Memory, pt: FrameNo, i: nat, n: nat)
    requires i <= n <= 1024
    ensures Leaves(m, pt, i) <= Leaves(m, pt, n)
  {
    if i < n {
      LeavesPrefix(m, pt, i, n - 1);
    }
  }

  lemma {:induction false} WalkPrefix(m: Memory, pdt: FrameNo, i: nat, n: nat)
    requires i <= n <= 1024
    ensures Walk(m, pdt, i) <= Walk(m, pdt, n)
  {
    if i < n {
      WalkPrefix(m, pdt, i, n - 1);
    }
  }

  lemma {:induction false} LeavesDependOnTable(m: Memory, m': Memory, pt: FrameNo, n: nat)
    requires n <= 1024 && m[pt] == m'[pt]
    ensures Leaves(m, pt, n) == Leaves(m', pt, n)
  {
    if n > 0 {
      LeavesDependOnTable(m, m', pt, n - 1);
    }
  }

  lemma NoDupParts<T>(a: seq<T>, b: seq<T>)
    requires NoDup(a + b)
    ensures NoDup(a) && NoDup(b)
    ensures forall x :: x in a ==> x !in b
  {
    var s := a + b;
    assert forall i :: 0 <= i < |a| ==> a[i] == s[i];
    assert forall i :: 0 <= i < |b| ==> b[i] == s[|a| + i];
  }

  lemma ReleasablePrefix(p: Pool, a: seq<FrameNo>, s: seq<FrameNo>)
    requires Releasable(p, s) && a <= s
    ensures Releasable(p, a)
  {
    assert forall f :: f in a ==> f in s;
  }

  // ----- creating and extending address spaces -----

  /** setup_kernel_paging: the table that maps the first 4 MiB onto itself, user pages 7 to 0x7F only. */
  function KernelPage(): Page {
    seq(1024, i requires 0 <= i < 1024 => KernelEntry(i))
  }

  function KernelEntry(i: Slot): Word { Entry(i, true, 7 <= i < 0x80) }

  function Mounted(m: Memory, pdt: FrameNo, va: Word): bool {
    var pde := m[pdt][DirectorySlot(va)];
    Present(pde) && (LargePage(pde) || Present(m[FrameOf(pde)][TableSlot(va)]))
  }

  /** mount_page, given the owner a new page table would get; None stands for the kernel panic. */
  function Mount(p: Pool, o: Owner, pdt: FrameNo, va: Word, physical: FrameNo, writable: bool, user: bool)
    : Option<Pool>
  {
    if !Present(p.mem[pdt][DirectorySlot(va)]) then
      if !CanAlloc(p) then None
      else
        var g := Calloc(p, o);
        var q := Write(g.pool, pdt, DirectorySlot(va), Entry(g.frame, true, true));
        Some(MountLeaf(q, pdt, va, physical, writable, user))
    else
      Some(MountLeaf(p, pdt, va, physical, writable, user))
  }

  function MountLeaf(p: Pool, pdt: FrameNo, va: Word, physical: FrameNo, writable: bool, user: bool): Pool {
    var pde := p.mem[pdt][DirectorySlot(va)];
    if LargePage(pde) then p
    else Write(p, FrameOf(pde), TableSlot(va), Entry(physical, writable, user))
  }

  /** Through a directory whose own table, if there is one already, is an ordinary user table, va then
      translates to the mounted frame with the rights asked for. */
  lemma MountTranslates(p: Pool, o: Owner, pdt: FrameNo, va: Word, physical: FrameNo, writable: bool, user: bool)
    requires PoolInv(p) && Held(p, pdt) && o != Free
    requires var pde := p.mem[pdt][DirectorySlot(va)];
             Present(pde) ==> !LargePage(pde) && FrameOf(pde) != pdt && Writable(pde) && User(pde)
    requires Mount(p, o, pdt, va, physical, writable, user).Some?
    ensures Translate(Mount(p, o, pdt, va, physical, writable, user).value.mem, pdt, va) ==
            Some(Mapping(physical * 4096 + va % 4096, writable, user))
  {
    if Present(p.mem[pdt][DirectorySlot(va)]) {
      WrittenTranslates(p, pdt, va, physical, writable, user);
    } else {
      CallocKeeps(p, o);
      EntryFields(Calloc(p, o).frame, true, true);
      var g := Calloc(p, o);
      assert g.frame != pdt;
      WrittenTranslates(Write(g.pool, pdt, DirectorySlot(va), Entry(g.frame, true, true)), pdt, va,
                        physical, writable, user);
    }
    hide Entry, Present, Writable, User, LargePage, FrameOf, PoolInv, Translate, Calloc;
  }

  /** Writing the entry of a page into an ordinary user table maps it. */
  lemma WrittenTranslates(p: Pool, pdt: FrameNo, va: Word, physical: FrameNo, writable: bool, user: bool)
    requires var pde := p.mem[pdt][DirectorySlot(va)];
             Present(pde) && !LargePage(pde) && FrameOf(pde) != pdt && Writable(pde) && User(pde)
    ensures var q := Write(p, FrameOf(p.mem[pdt][DirectorySlot(va)]), TableSlot(va), Entry(physical, writable, user));
            Translate(q.mem, pdt, va) == Some(Mapping(physical * 4096 + va % 4096, writable, user))
  {
    EntryFields(physical, writable, user);
    hide Entry, Present, Writable, User, LargePage;
  }

  /** create_VAS: a directory with the shared kernel table and a one-page stack below 0x800000. */
  function Create(p: Pool, pid: nat, kernelPde: Word): Option<Grant> {
    if !CanAlloc(p) then None
    else
      var dir := Calloc(p, Directory(pid));
      var p1 := Write(dir.pool, dir.frame, 0, kernelPde);
      if !CanAlloc(p1) then None
      else
        var table := Calloc(p1, Table(pid));
        if !CanAlloc(table.pool) then None
        else
          var leaf := Alloc(table.pool, Leaf(pid, 1023));
          Some(Grant(dir.frame,
                     Write(Write(leaf.pool, table.frame, 1023, Entry(leaf.frame, true, true)),
                           dir.frame, 1, Entry(table.frame, true, true))))
  }

  // ----- the code -----

  /** setup_kernel_paging; returns the kernel table, or None for the kernel panic. */
  method SetupKernelPaging(fa: FrameAllocator) returns (kernelPt: Option<FrameNo>)
    requires fa.Valid()
    modifies fa, fa.ram
    ensures fa.Valid()
    ensures kernelPt.Some? <==> CanAlloc(old(fa.Value()))
    ensures kernelPt.Some? ==>
              var g := Alloc(old(fa.Value()), KernelTable);
              kernelPt.value == g.frame && fa.Value() == g.pool.(mem := g.pool.mem[g.frame := KernelPage()])
  {
    kernelPt := fa.CallocPage(KernelTable);
    if kernelPt.None? {
      return;
    }
    var f := kernelPt.value;
    ghost var before := fa.mem;
    ghost var pool := fa.Value();
    for i := 0 to 1024
      invariant fa.Valid() && fa.mem == before[f := fa.mem[f]]
      invariant forall k: Slot :: k < i ==> fa.mem[f][k] == KernelPage()[k]
      invariant fa.Value() == pool.(mem := fa.mem)
    {
      fa.Store(f, i, Entry(i, true, i >= 0x7 && i < 0x80));
    }
    assert fa.mem[f] == KernelPage();
  }

  /** The processor's table walk. */
  method WalkTables(fa: FrameAllocator, pdt: FrameNo, va: Word) returns (t: Option<Mapping>)
    requires fa.Valid()
    ensures t == Translate(fa.mem, pdt, va)
  {
    var pde := fa.Load(pdt, va / 0x40_0000);
    if !Present(pde) {
      return None;
    }
    if LargePage(pde) {
      return Some(Mapping(pde / 0x40_0000 * 0x40_0000 + va % 0x40_0000, Writable(pde), User(pde)));
    }
    var pte := fa.Load(pde / 4096, va / 4096 % 1024);
    if !Present(pte) {
      return None;
    }
    t := Some(Mapping(pte / 4096 * 4096 + va % 4096, Writable(pde) && Writable(pte), User(pde) && User(pte)));
  }

  /** is_mounted. */
  method IsMounted(fa: FrameAllocator, pdt: FrameNo, va: Word) returns (b: bool)
    requires fa.Valid()
    ensures b == Mounted(fa.mem, pdt, va) == Translate(fa.mem, pdt, va).Some?
  {
    var pde := fa.Load(pdt, va / 0x40_0000);
    if !Present(pde) {
      return false;
    }
    if LargePage(pde) {
      return true;
    }
    var pte := fa.Load(pde / 4096, va / 4096 % 1024);
    b := Present(pte);
  }

  /** mount_page; false stands for the kernel panic. */
  method MountPage(fa: FrameAllocator, ghost o: Owner, pdt: FrameNo, va: Word, physical: FrameNo,
                   writable: bool, user: bool)
    returns (ok: bool)
    requires fa.Valid()
    modifies fa, fa.ram
    ensures fa.Valid()
    ensures ok <==> Mount(old(fa.Value()), o, pdt, va, physical, writable, user).Some?
    ensures ok ==> fa.Value() == Mount(old(fa.Value()), o, pdt, va, physical, writable, user).value
  {
    var pde := fa.Load(pdt, va / 0x40_0000);
    if !Present(pde) {
      var page := fa.CallocPage(o);
      if page.None? {
        return false;
      }
      fa.Store(pdt, va / 0x40_0000, Entry(page.value, true, true));
    }
    pde := fa.Load(pdt, va / 0x40_0000);
    if !LargePage(pde) {
      fa.Store(pde / 4096, va / 4096 % 1024, Entry(physical, writable, user));
    }
    ok := true;
  }

  /** create_VAS; None stands for the kernel panic. */
  method CreateVas(fa: FrameAllocator, ghost pid: nat, kernelPde: Word) returns (pdt: Option<FrameNo>)
    requires fa.Valid()
    modifies fa, fa.ram
    ensures fa.Valid()
    ensures pdt.Some? <==> Create(old(fa.Value()), pid, kernelPde).Some?
    ensures pdt.Some? ==> Create(old(fa.Value()), pid, kernelPde) == Some(Grant(pdt.value, fa.Value()))
  {
    pdt := fa.CallocPage(Directory(pid));
    if pdt.None? {
      return;
    }
    fa.Store(pdt.value, 0, kernelPde);
    var table := fa.CallocPage(Table(pid));
    if table.None? {
      return None;
    }
    var leaf := fa.MallocPage(Leaf(pid, 1023));
    if leaf.None? {
      return None;
    }
    fa.Store(table.value, 1023, Entry(leaf.value, true, true));
    fa.Store(pdt.value, 1, Entry(table.value, true, true));
  }

  /** The i-th entry is read unchanged after the frames of the entries before it were freed. */
  lemma ReleaseAllSnoc(p: Pool, fs: seq<FrameNo>, f: FrameNo)
    ensures ReleaseAll(p, fs + [f]) == Release(ReleaseAll(p, fs), f)
  {
    assert (fs + [f])[..|fs|] == fs;
  }

  lemma LeavesStep(p: Pool, pt: FrameNo, i: Slot)
    requires PoolInv(p) && Releasable(p, Leaves(p.mem, pt, 1024)) && pt !in Leaves(p.mem, pt, 1024)
    ensures var q := ReleaseAll(p, Leaves(p.mem, pt, i));
            && q.mem[pt] == p.mem[pt]
            && ReleaseAll(p, Leaves(p.mem, pt, i + 1)) ==
               if Present(p.mem[pt][i]) then Release(q, FrameOf(p.mem[pt][i])) else q
  {
    var freed := Leaves(p.mem, pt, i);
    LeavesPrefix(p.mem, pt, i, 1024);
    assert Releasable(p, freed) by {
      ReleasablePrefix(p, freed, Leaves(p.mem, pt, 1024));
    }
    assert pt !in freed;
    ReleaseAllEffect(p, freed);
    if Present(p.mem[pt][i]) {
      ReleaseAllSnoc(p, freed, FrameOf(p.mem[pt][i]));
    } else {
      assert Leaves(p.mem, pt, i + 1) == freed + [] == freed;
    }
  }

  /** free_pagetable.  The table's own words are read while word 0 of each leaf frame is overwritten. */
  method FreePagetable(fa: FrameAllocator, pt: FrameNo)
    requires fa.Valid() && PoolInv(fa.Value())
    requires Releasable(fa.Value(), Leaves(fa.mem, pt, 1024)) && pt !in Leaves(fa.mem, pt, 1024)
    modifies fa, fa.ram
    ensures fa.Valid()
    ensures fa.Value() == ReleaseAll(old(fa.Value()), Leaves(old(fa.mem), pt, 1024))
  {
    ghost var p := fa.Value();
    for i := 0 to 1024
      invariant fa.Valid() && fa.Value() == ReleaseAll(p, Leaves(p.mem, pt, i))
    {
      LeavesStep(p, pt, i);
      var pte := fa.Load(pt, i);
      if Present(pte) {
        fa.FreePage(pte / 4096);
      }
    }
  }

  /** Frames not yet reached by the walk are intact and still held. */
  lemma NextTable(p: Pool, done: seq<FrameNo>, leaves: seq<FrameNo>, pt: FrameNo, q: Pool)
    requires Releasable(p, done + (leaves + [pt]))
    requires Released(p, done, q)
    ensures q.mem[pt] == p.mem[pt]
    ensures Releasable(q, leaves) && pt !in leaves
  {
    NoDupParts(done, leaves + [pt]);
    NoDupParts(leaves, [pt]);
    assert pt in leaves + [pt];
    forall f | f in leaves ensures Held(q, f) {
      assert f in leaves + [pt];
      assert f in done + (leaves + [pt]);
    }
  }

  /** When the walk reaches directory slot i, the directory, the table of that slot and the
      frames it names are intact, and freeing them completes the next prefix of the walk. */
  lemma WalkStep(p: Pool, pdt: FrameNo, i: Slot)
    requires PoolInv(p) && 1 <= i
    requires Releasable(p, Walk(p.mem, pdt, 1024)) && pdt !in Walk(p.mem, pdt, 1024)
    ensures var q, e := ReleaseAll(p, Walk(p.mem, pdt, i)), p.mem[pdt][i];
            && PoolInv(q)
            && q.mem[pdt] == p.mem[pdt]
            && if IsTableEntry(e) then
                 var leaves := Leaves(q.mem, FrameOf(e), 1024);
                 && Releasable(q, leaves) && FrameOf(e) !in leaves
                 && ReleaseAll(p, Walk(p.mem, pdt, i + 1)) == Release(ReleaseAll(q, leaves), FrameOf(e))
               else
                 ReleaseAll(p, Walk(p.mem, pdt, i + 1)) == q
  {
    var done, e := Walk(p.mem, pdt, i), p.mem[pdt][i];
    WalkPrefix(p.mem, pdt, i, 1024);
    ReleasablePrefix(p, done, Walk(p.mem, pdt, 1024));
    ReleaseAllEffect(p, done);
    if IsTableEntry(e) {
      var q, pt := ReleaseAll(p, done), FrameOf(e);
      var leaves := Leaves(p.mem, pt, 1024);
      WalkPrefix(p.mem, pdt, i + 1, 1024);
      ReleasablePrefix(p, done + (leaves + [pt]), Walk(p.mem, pdt, 1024));
      NextTable(p, done, leaves, pt, q);
      LeavesDependOnTable(p.mem, q.mem, pt, 1024);
      ReleaseAllConcat(p, done, leaves + [pt]);
      ReleaseAllSnoc(q, leaves, pt);
    } else {
      assert Walk(p.mem, pdt, i + 1) == done + [] == done;
    }
  }

  /** free_VAS.  The directory page itself is not freed. */
  method FreeVas(fa: FrameAllocator, pdt: FrameNo)
    requires fa.Valid() && PoolInv(fa.Value())
    requires Releasable(fa.Value(), Walk(fa.mem, pdt, 1024)) && pdt !in Walk(fa.mem, pdt, 1024)
    modifies fa, fa.ram
    ensures fa.Valid()
    ensures fa.Value() == ReleaseAll(old(fa.Value()), Walk(old(fa.mem), pdt, 1024))
    ensures Released(old(fa.Value()), Walk(old(fa.mem), pdt, 1024), fa.Value())
  {
    ghost var p := fa.Value();
    for i := 1 to 1024
      invariant fa.Valid() && fa.Value() == ReleaseAll(p, Walk(p.mem, pdt, i))
    {
      WalkStep(p, pdt, i);
      var pde := fa.Load(pdt, i);
      if Present(pde) {
        if !LargePage(pde) {
          FreePagetable(fa, pde / 4096);
          fa.FreePage(pde / 4096);
        }
      }
    }
    ReleaseAllEffect(p, Walk(p.mem, pdt, 1024));
  }
}

/** The invariant of the machine holds at boot and is kept by every step. */
module ProcessInvariant {
  import opened Words
  import opened Frames
  import opened Paging
  import opened ContextFrame
  import opened RotatingQueue
  import opened Processes

  lemma BootKeeps(mem: Memory, imageEnd: Word)
    ensures Inv(Boot(mem, imageEnd))
  {
    var p := Pool(mem, FIRST_FRAME, 0, [], map[]);
    AllocKeeps(p, KernelTable);
  }

  lemma EnqueueKeeps(m: Machine, executable: Word)
    requires Inv(m)
    ensures Inv(EnqueueProcess(m, executable))
  {
    var m' := EnqueueProcess(m, executable);
    assert m'.procs[..|m.procs|] == m.procs;
    forall f: FrameNo | f in m'.pool.owner ensures Used(m', f, m'.pool.owner[f]) {
      assert Used(m, f, m.pool.owner[f]);
    }
    forall pid: nat ensures pid in m'.queue <==> pid < |m'.procs| {
      assert pid in m.queue <==> pid < |m.procs|;
    }
    assert |m.procs| !in m.queue;
  }

  // ----- frames that a step does not touch -----

  predicate OwnedBy(o: Owner, pid: nat) {
    match o
    case Directory(q) => q == pid
    case Table(q) => q == pid
    case Leaf(q, _) => q == pid
    case _ => false
  }

  /** From p to q, frame f keeps its owner and, unless it is a stack page, its contents. */
  ghost predicate Kept(p: Pool, q: Pool, f: FrameNo) {
    f in p.owner && Owned(q, f, p.owner[f]) && (p.owner[f].Leaf? || q.mem[f] == p.mem[f])
  }

  /** All frames of process pid are kept. */
  ghost predicate Undisturbed(p: Pool, q: Pool, pid: nat) {
    forall f: FrameNo :: f in p.owner && OwnedBy(p.owner[f], pid) ==> Kept(p, q, f)
  }

  /** All frames in use by anything but process pid are kept. */
  ghost predicate OthersKept(p: Pool, q: Pool, pid: nat) {
    forall f: FrameNo :: Held(p, f) && !OwnedBy(p.owner[f], pid) ==> Kept(p, q, f)
  }

  lemma SpaceUndisturbed(p: Pool, q: Pool, kernelPt: FrameNo, pid: nat, pdt: FrameNo, lowest: Word)
    requires Space(p, kernelPt, pid, pdt, lowest) && Undisturbed(p, q, pid)
    ensures Space(q, kernelPt, pid, pdt, lowest)
    ensures TableOf(q, pdt) == TableOf(p, pdt)
    ensures forall j: Slot :: LeafOf(q, pdt, j) == LeafOf(p, pdt, j)
  {
    assert Kept(p, q, pdt);
    assert Kept(p, q, TableOf(p, pdt));
    forall j: Slot ensures StackSlot(q, pid, pdt, lowest, j) {
      assert StackSlot(p, pid, pdt, lowest, j);
      var f := LeafOf(p, pdt, j);
      if LowSlot(lowest) <= j {
        assert Kept(p, q, f);
      }
    }
  }

  /** A step that concerns only process pid keeps the invariant if it leaves the frames of
      everything else alone, accounts for each frame it gives to or takes from the process, and
      leaves the process with a proper address space or none. */
  lemma Replace(m: Machine, m': Machine, pid: nat)
    requires Inv(m) && pid < |m.procs|
    requires |m'.procs| == |m.procs| && m'.procs == m.procs[pid := m'.procs[pid]]
    requires m'.kernelPt == m.kernelPt && PoolInv(m'.pool) && Queued(m')
    requires m.abandoned <= m'.abandoned && |m'.abandoned| == m'.kills
    requires forall k: nat :: |m.abandoned| <= k < |m'.abandoned| ==> Owned(m'.pool, m'.abandoned[k], Abandoned(k))
    requires OthersKept(m.pool, m'.pool, pid)
    requires forall f: FrameNo :: f in m'.pool.owner ==>
               var o := m'.pool.owner[f];
               if OwnedBy(o, pid) then Used(m', f, o)
               else o.Free? || Owned(m.pool, f, o) || (o.Abandoned? && Used(m', f, o))
    requires m'.procs[pid].pdt != 0 ==>
               Space(m'.pool, m.kernelPt, pid, m'.procs[pid].pdt, m'.procs[pid].lowest)
    requires Allocated(m'.pool) - Allocated(m.pool) ==
             FramesOf(m'.procs[pid]) - FramesOf(m.procs[pid]) + m'.kills - m.kills
    ensures Inv(m')
  {
    assert Kept(m.pool, m'.pool, m.kernelPt);
    forall k: nat | k < |m'.abandoned| ensures Owned(m'.pool, m'.abandoned[k], Abandoned(k)) {
      if k < |m.abandoned| {
        assert Kept(m.pool, m'.pool, m.abandoned[k]);
      }
    }
    forall i: nat | i < |m'.procs| && m'.procs[i].pdt != 0
      ensures Space(m'.pool, m.kernelPt, i, m'.procs[i].pdt, m'.procs[i].lowest)
    {
      if i != pid {
        SpaceUndisturbed(m.pool, m'.pool, m.kernelPt, i, m.procs[i].pdt, m.procs[i].lowest);
      }
    }
    forall f: FrameNo | f in m'.pool.owner ensures Used(m', f, m'.pool.owner[f]) {
      ReplaceUsed(m, m', pid, f);
    }
    LiveFramesUpdate(m.procs, pid, m'.procs[pid]);
  }

  lemma ReplaceUsed(m: Machine, m': Machine, pid: nat, f: FrameNo)
    requires Inv(m) && pid < |m.procs|
    requires |m'.procs| == |m.procs| && m'.procs == m.procs[pid := m'.procs[pid]]
    requires m'.kernelPt == m.kernelPt && PoolInv(m'.pool) && m.abandoned <= m'.abandoned
    requires OthersKept(m.pool, m'.pool, pid)
    requires f in m'.pool.owner
    requires var o := m'.pool.owner[f];
             if OwnedBy(o, pid) then Used(m', f, o)
             else o.Free? || Owned(m.pool, f, o) || (o.Abandoned? && Used(m', f, o))
    ensures Used(m', f, m'.pool.owner[f])
  {
    var o := m'.pool.owner[f];
    if Owned(m.pool, f, o) && !OwnedBy(o, pid) {
      assert Used(m, f, o);
      match o
      case Free => assert f in m'.pool.free;
      case Table(i) =>
        SpaceUndisturbed(m.pool, m'.pool, m.kernelPt, i, m.procs[i].pdt, m.procs[i].lowest);
      case Leaf(i, _) =>
        SpaceUndisturbed(m.pool, m'.pool, m.kernelPt, i, m.procs[i].pdt, m.procs[i].lowest);
      case _ =>
    } else if o.Free? {
      assert f in m'.pool.free;
    }
  }

  lemma {:induction false} LiveFramesUpdate(procs: seq<Process>, pid: nat, p: Process)
    requires pid < |procs|
    ensures LiveFrames(procs[pid := p]) == LiveFrames(procs) - FramesOf(procs[pid]) + FramesOf(p)
  {
    var n := |procs| - 1;
    if pid == n {
      assert procs[pid := p][..n] == procs[..n];
    } else {
      assert procs[pid := p][..n] == procs[..n][pid := p];
      LiveFramesUpdate(procs[..n], pid, p);
    }
  }

  // ----- switch -----

  /** create_VAS succeeds iff three frames remain. */
  lemma CreateIff(p: Pool, pid: nat, kernelPde: Word)
    requires PoolInv(p)
    ensures Create(p, pid, kernelPde).Some? <==> Available(p) >= 3
  {
    CanAllocIff(p);
    if CanAlloc(p) {
      var dir := CallocWrite(p, Directory(pid), 0, kernelPde);
      if CanAlloc(dir.pool) {
        CallocKeeps(dir.pool, Table(pid));
        CanAllocIff(Calloc(dir.pool, Table(pid)).pool);
      }
    }
  }

  lemma CallocWrite(p: Pool, o: Owner, i: Slot, w: Word) returns (g: Grant)
    requires PoolInv(p) && CanAlloc(p) && o != Free
    ensures g == Grant(Calloc(p, o).frame, Write(Calloc(p, o).pool, Calloc(p, o).frame, i, w))
    ensures PoolInv(g.pool) && Held(g.pool, g.frame) && !Held(p, g.frame) && g.frame >= FIRST_FRAME
    ensures g.pool.owner == p.owner[g.frame := o]
    ensures g.pool.mem == p.mem[g.frame := ZeroPage()[i := w]]
    ensures Available(g.pool) == Available(p) - 1 && Allocated(g.pool) == Allocated(p) + 1
    ensures CanAlloc(g.pool) <==> Available(g.pool) > 0
  {
    CallocKeeps(p, o);
    WriteKeeps(Calloc(p, o).pool, Calloc(p, o).frame, i, w);
    g := Grant(Calloc(p, o).frame, Write(Calloc(p, o).pool, Calloc(p, o).frame, i, w));
    CanAllocIff(g.pool);
  }

  /** The stack table and the stack page, once the directory is there. */
  lemma StackFrames(p: Pool, pid: nat) returns (h: Grant, l: Grant)
    requires PoolInv(p) && Available(p) >= 2
    ensures CanAlloc(p) && h == Calloc(p, Table(pid)) && CanAlloc(h.pool) && l == Alloc(h.pool, Leaf(pid, 1023))
    ensures PoolInv(l.pool) && Allocated(l.pool) == Allocated(p) + 2
    ensures !Held(p, h.frame) && !Held(p, l.frame) && h.frame != l.frame
    ensures l.pool.owner == p.owner[h.frame := Table(pid)][l.frame := Leaf(pid, 1023)]
    ensures l.pool.mem == p.mem[h.frame := ZeroPage()]
  {
    CanAllocIff(p);
    CallocKeeps(p, Table(pid));
    h := Calloc(p, Table(pid));
    CanAllocIff(h.pool);
    AllocKeeps(h.pool, Leaf(pid, 1023));
    l := Alloc(h.pool, Leaf(pid, 1023));
    hide PoolInv, Calloc, Alloc, CanAlloc, Available, Allocated;
  }

  /** The two entries that join the three frames. */
  lemma JoinFrames(p: Pool, dir: FrameNo, table: FrameNo, leaf: FrameNo) returns (q: Pool)
    requires PoolInv(p) && Held(p, dir) && Held(p, table) && dir != table
    ensures q == Write(Write(p, table, 1023, Entry(leaf, true, true)), dir, 1, Entry(table, true, true))
    ensures PoolInv(q) && Allocated(q) == Allocated(p) && q.owner == p.owner
    ensures q.mem[dir] == p.mem[dir][1 := Entry(table, true, true)]
    ensures q.mem[table] == p.mem[table][1023 := Entry(leaf, true, true)]
    ensures forall f: FrameNo :: f != dir && f != table ==> q.mem[f] == p.mem[f]
  {
    WriteKeeps(p, table, 1023, Entry(leaf, true, true));
    var r := Write(p, table, 1023, Entry(leaf, true, true));
    WriteKeeps(r, dir, 1, Entry(table, true, true));
    q := Write(r, dir, 1, Entry(table, true, true));
    hide PoolInv, Entry;
  }

  /** The pages create_VAS fills, and the frames it takes. */
  lemma CreateFrames(p: Pool, pid: nat, kernelPde: Word) returns (dir: FrameNo, table: FrameNo, leaf: FrameNo, q: Pool)
    requires PoolInv(p) && Available(p) >= 3
    ensures Create(p, pid, kernelPde) == Some(Grant(dir, q))
    ensures PoolInv(q) && Allocated(q) == Allocated(p) + 3
    ensures dir >= FIRST_FRAME && dir != table && dir != leaf && table != leaf
    ensures Created(p, q, pid, dir, table, leaf)
    ensures q.mem[dir] == ZeroPage()[0 := kernelPde][1 := Entry(table, true, true)]
    ensures q.mem[table] == ZeroPage()[1023 := Entry(leaf, true, true)]
  {
    CanAllocIff(p);
    hide PoolInv, Calloc, Alloc, CanAlloc, Available, Allocated, Write, Entry, ZeroPage, Create, Created;
    var g := CallocWrite(p, Directory(pid), 0, kernelPde);
    var h, l := StackFrames(g.pool, pid);
    dir, table, leaf := g.frame, h.frame, l.frame;
    assert dir != table && dir != leaf;
    q := JoinFrames(l.pool, dir, table, leaf);
    CreateIs(p, pid, kernelPde, g, h, l);
    CreatedBy(p, pid, kernelPde, g, h, l, q);
  }

  lemma CreatedBy(p: Pool, pid: nat, kernelPde: Word, g: Grant, h: Grant, l: Grant, q: Pool)
    requires g.frame != h.frame && g.frame != l.frame && h.frame != l.frame
    requires !Held(p, g.frame) && !Held(g.pool, h.frame) && !Held(g.pool, l.frame)
    requires g.pool.owner == p.owner[g.frame := Directory(pid)]
    requires l.pool.owner == g.pool.owner[h.frame := Table(pid)][l.frame := Leaf(pid, 1023)]
    requires g.pool.mem == p.mem[g.frame := ZeroPage()[0 := kernelPde]]
    requires l.pool.mem == g.pool.mem[h.frame := ZeroPage()]
    requires q.owner == l.pool.owner
    requires forall f: FrameNo :: f != g.frame && f != h.frame ==> q.mem[f] == l.pool.mem[f]
    ensures Created(p, q, pid, g.frame, h.frame, l.frame)
    ensures l.pool.mem[g.frame] == ZeroPage()[0 := kernelPde] && l.pool.mem[h.frame] == ZeroPage()
  {
    hide ZeroPage;
  }

  lemma CreateIs(p: Pool, pid: nat, kernelPde: Word, g: Grant, h: Grant, l: Grant)
    requires CanAlloc(p)
    requires g == Grant(Calloc(p, Directory(pid)).frame,
                        Write(Calloc(p, Directory(pid)).pool, Calloc(p, Directory(pid)).frame, 0, kernelPde))
    requires CanAlloc(g.pool) && h == Calloc(g.pool, Table(pid))
    requires CanAlloc(h.pool) && l == Alloc(h.pool, Leaf(pid, 1023))
    ensures Create(p, pid, kernelPde) ==
            Some(Grant(g.frame, Write(Write(l.pool, h.frame, 1023, Entry(l.frame, true, true)),
                                      g.frame, 1, Entry(h.frame, true, true))))
  {
    hide Calloc, Alloc, CanAlloc, Write, Entry;
  }

  /** The three new frames were not in use, and nothing else changed. */
  ghost predicate Created(p: Pool, q: Pool, pid: nat, dir: FrameNo, table: FrameNo, leaf: FrameNo) {
    && !Held(p, dir) && !Held(p, table) && !Held(p, leaf)
    && q.owner == p.owner[dir := Directory(pid)][table := Table(pid)][leaf := Leaf(pid, 1023)]
    && forall f: FrameNo :: f != dir && f != table ==> q.mem[f] == p.mem[f]
  }

  lemma CreatedSpace(p: Pool, q: Pool, pid: nat, kernelPt: FrameNo, dir: FrameNo, table: FrameNo, leaf: FrameNo)
    requires Created(p, q, pid, dir, table, leaf) && dir != table && dir != leaf && table != leaf
    requires q.mem[dir] == ZeroPage()[0 := Entry(kernelPt, true, true)][1 := Entry(table, true, true)]
    requires q.mem[table] == ZeroPage()[1023 := Entry(leaf, true, true)]
    ensures Space(q, kernelPt, pid, dir, FIRST_STACK_PAGE)
    ensures TableOf(q, dir) == table && LeafOf(q, dir, 1023) == leaf
  {
    EntryFields(table, true, true);
    EntryFields(leaf, true, true);
  }

  lemma SwitchKeeps(m: Machine)
    requires Inv(m) && m.queue != []
    ensures SwitchProcess(m).Some? ==> Inv(SwitchProcess(m).value) && Running(SwitchProcess(m).value)
    ensures SwitchProcess(m).None? <==> NextIsNew(m) && Available(m.pool) < 3
  {
    RotateKeeps(m.queue);
    var pid := Rotate(m.queue)[0];
    assert pid in m.queue;
    if m.procs[pid].pdt == 0 {
      CreateIff(m.pool, pid, Entry(m.kernelPt, true, true));
      if Available(m.pool) >= 3 {
        SwitchCreates(m, pid);
      }
    } else {
      var m' := SwitchProcess(m).value;
      forall f: FrameNo | f in m'.pool.owner ensures Used(m', f, m'.pool.owner[f]) {
        assert Used(m, f, m.pool.owner[f]);
      }
    }
  }

  /** The process a switch would reach has no address space yet. */
  ghost predicate NextIsNew(m: Machine) {
    m.queue != [] && Rotate(m.queue)[0] < |m.procs| && m.procs[Rotate(m.queue)[0]].pdt == 0
  }

  /** Switching to a process without an address space. */
  lemma SwitchCreates(m: Machine, pid: nat)
    requires Inv(m) && m.queue != [] && Available(m.pool) >= 3
    requires pid == Rotate(m.queue)[0] && pid < |m.procs| && m.procs[pid].pdt == 0
    ensures SwitchProcess(m).Some? && Inv(SwitchProcess(m).value)
    ensures Running(SwitchProcess(m).value)
  {
    assert PoolInv(m.pool);
    hide Inv, PoolInv, Create, Available, Rotate, Space;
    var dir, table, leaf, q := CreateFrames(m.pool, pid, Entry(m.kernelPt, true, true));
    CreatedSpace(m.pool, q, pid, m.kernelPt, dir, table, leaf);
    var m' := SwitchProcess(m).value;
    assert m' == m.(pool := q, queue := Rotate(m.queue), procs := m'.procs);
    CreatedInv(m, m', pid, dir, table, leaf);
  }

  lemma CreatedInv(m: Machine, m': Machine, pid: nat, dir: FrameNo, table: FrameNo, leaf: FrameNo)
    requires Inv(m) && m.queue != [] && pid < |m.procs| && m.procs[pid].pdt == 0
    requires m' == m.(pool := m'.pool, queue := Rotate(m.queue), procs := m'.procs)
    requires |m'.procs| == |m.procs| && m'.procs == m.procs[pid := m'.procs[pid]]
    requires m'.procs[pid].pdt == dir && m'.procs[pid].lowest == FIRST_STACK_PAGE
    requires PoolInv(m'.pool) && Allocated(m'.pool) == Allocated(m.pool) + 3
    requires dir >= FIRST_FRAME && dir != table && dir != leaf && table != leaf
    requires Created(m.pool, m'.pool, pid, dir, table, leaf)
    requires Space(m'.pool, m.kernelPt, pid, dir, FIRST_STACK_PAGE)
    requires TableOf(m'.pool, dir) == table && LeafOf(m'.pool, dir, 1023) == leaf
    ensures Inv(m')
  {
    assert Queued(m) && |m.abandoned| == m.kills;
    RotateKeeps(m.queue);
    CreatedUsed(m, m', pid, dir, table, leaf);
    CreatedOthersKept(m.pool, m'.pool, pid, dir, table, leaf);
    hide Inv, Created, Space, PoolInv, Allocated, OthersKept, Used, Rotate, TableOf, LeafOf;
    assert FramesOf(m'.procs[pid]) == 3;
    assert Queued(m');
    Replace(m, m', pid);
  }

  lemma CreatedOthersKept(p: Pool, q: Pool, pid: nat, dir: FrameNo, table: FrameNo, leaf: FrameNo)
    requires Created(p, q, pid, dir, table, leaf)
    ensures OthersKept(p, q, pid)
  {
  }

  lemma CreatedUsed(m: Machine, m': Machine, pid: nat, dir: FrameNo, table: FrameNo, leaf: FrameNo)
    requires Inv(m) && pid < |m.procs| && m.procs[pid].pdt == 0
    requires dir >= FIRST_FRAME && dir != table && dir != leaf && table != leaf
    requires Created(m.pool, m'.pool, pid, dir, table, leaf)
    requires |m'.procs| == |m.procs| && m'.procs[pid].pdt == dir && m'.procs[pid].lowest == FIRST_STACK_PAGE
    requires TableOf(m'.pool, dir) == table && LeafOf(m'.pool, dir, 1023) == leaf
    ensures forall f: FrameNo :: f in m'.pool.owner ==>
              var o := m'.pool.owner[f];
              if OwnedBy(o, pid) then Used(m', f, o) else Owned(m.pool, f, o)
  {
    forall f: FrameNo | f in m'.pool.owner
      ensures var o := m'.pool.owner[f];
              if OwnedBy(o, pid) then Used(m', f, o) else Owned(m.pool, f, o)
    {
      if f != dir && f != table && f != leaf {
        assert Used(m, f, m.pool.owner[f]);
      }
    }
  }

  // ----- kill -----

  /** The frames named by a stack table are the stack pages of its process, each once. */
  lemma {:induction false} SpaceLeaves(p: Pool, kernelPt: FrameNo, pid: nat, pdt: FrameNo, lowest: Word, n: nat)
    requires Space(p, kernelPt, pid, pdt, lowest) && n <= 1024
    ensures var leaves := Leaves(p.mem, TableOf(p, pdt), n);
            && NoDup(leaves)
            && |leaves| == Max(0, n - LowSlot(lowest))
            && (forall f :: f in leaves ==>
                  f in p.owner && p.owner[f].Leaf? && p.owner[f].pid == pid && p.owner[f].page < n)
            && (forall j: Slot :: LowSlot(lowest) <= j < n ==> LeafOf(p, pdt, j) in leaves)
  {
    if n > 0 {
      SpaceLeaves(p, kernelPt, pid, pdt, lowest, n - 1);
      assert StackSlot(p, pid, pdt, lowest, n - 1);
      EntryFields(LeafOf(p, pdt, n - 1), true, true);
    }
  }

  /** Only slot 1 of a directory leads free_VAS to a table. */
  lemma {:induction false} SpaceWalk(p: Pool, kernelPt: FrameNo, pid: nat, pdt: FrameNo, lowest: Word, n: nat)
    requires Space(p, kernelPt, pid, pdt, lowest) && 2 <= n <= 1024
    ensures Walk(p.mem, pdt, n) == Leaves(p.mem, TableOf(p, pdt), 1024) + [TableOf(p, pdt)]
  {
    if n == 2 {
      EntryFields(TableOf(p, pdt), true, true);
    } else {
      SpaceWalk(p, kernelPt, pid, pdt, lowest, n - 1);
      assert p.mem[pdt][n - 1] == 0;
    }
  }

  /** free_VAS may be called on any live address space. */
  lemma SpaceReleasable(p: Pool, kernelPt: FrameNo, pid: nat, pdt: FrameNo, lowest: Word)
    requires Space(p, kernelPt, pid, pdt, lowest)
    ensures var frames := Walk(p.mem, pdt, 1024);
            && Releasable(p, frames) && pdt !in frames
            && |frames| == 1 + (STACK_TOP - lowest) / 4096
            && (forall f :: f in frames ==> f in p.owner && OwnedBy(p.owner[f], pid))
            && TableOf(p, pdt) in frames
            && (forall j: Slot :: LowSlot(lowest) <= j ==> LeafOf(p, pdt, j) in frames)
  {
    SpaceWalk(p, kernelPt, pid, pdt, lowest, 1024);
    SpaceLeaves(p, kernelPt, pid, pdt, lowest, 1024);
    var table := TableOf(p, pdt);
    var leaves := Leaves(p.mem, table, 1024);
    assert Owned(p, pdt, Directory(pid)) && Owned(p, table, Table(pid));
    assert Max(0, 1024 - LowSlot(lowest)) == (STACK_TOP - lowest) / 4096;
    hide Walk, Leaves, Space, LowSlot, TableOf, LeafOf;
    assert NoDup(leaves + [table]);
  }

  lemma KillKeeps(m: Machine)
    requires Inv(m) && Running(m)
    ensures Inv(Kill(m)) && Kill(m).queue == m.queue
    ensures Kill(m).pool.free == Reverse(Walk(m.pool.mem, Current(m).pdt, 1024)) + m.pool.free
    ensures Available(Kill(m).pool) == Available(m.pool) + |Walk(m.pool.mem, Current(m).pdt, 1024)|
  {
    var pid, p, m' := m.queue[0], m.pool, Kill(m);
    var proc := m.procs[pid];
    var frames := Walk(p.mem, proc.pdt, 1024);
    SpaceReleasable(p, m.kernelPt, pid, proc.pdt, proc.lowest);
    ReleaseAllEffect(p, frames);
    KilledInv(m, m', pid, frames, ReleaseAll(p, frames));
  }

  lemma KilledInv(m: Machine, m': Machine, pid: nat, frames: seq<FrameNo>, q: Pool)
    requires Inv(m) && pid < |m.procs| && m.procs[pid].pdt != 0
    requires Released(m.pool, frames, q) && Allocated(q) == Allocated(m.pool) - |frames|
    requires m.procs[pid].pdt !in frames && |frames| == FramesOf(m.procs[pid]) - 1
    requires forall f :: f in frames ==> f in m.pool.owner && OwnedBy(m.pool.owner[f], pid)
    requires TableOf(m.pool, m.procs[pid].pdt) in frames
    requires forall j: Slot :: LowSlot(m.procs[pid].lowest) <= j ==> LeafOf(m.pool, m.procs[pid].pdt, j) in frames
    requires m' == m.(pool := q.(owner := q.owner[m.procs[pid].pdt := Abandoned(m.kills)]),
                      procs := m.procs[pid := m.procs[pid].(pdt := 0)],
                      kills := m.kills + 1, abandoned := m.abandoned + [m.procs[pid].pdt])
    ensures Inv(m')
  {
    SpaceOf(m, pid);
    KillUsed(m, m', pid, frames, q);
    KillOthersKept(m.pool, frames, q, pid, m.procs[pid].pdt, Abandoned(m.kills));
    assert Allocated(m'.pool) == Allocated(q) && FramesOf(m'.procs[pid]) == 0 && Queued(m');
    assert Owned(m'.pool, m'.abandoned[m.kills], Abandoned(m.kills));
    hide *;
    Replace(m, m', pid);
  }

  lemma KillUsed(m: Machine, m': Machine, pid: nat, frames: seq<FrameNo>, q: Pool)
    requires Inv(m) && pid < |m.procs| && m.procs[pid].pdt != 0
    requires Released(m.pool, frames, q)
    requires TableOf(m.pool, m.procs[pid].pdt) in frames
    requires forall j: Slot :: LowSlot(m.procs[pid].lowest) <= j ==> LeafOf(m.pool, m.procs[pid].pdt, j) in frames
    requires m'.abandoned == m.abandoned + [m.procs[pid].pdt]
    requires m'.pool.owner == q.owner[m.procs[pid].pdt := Abandoned(m.kills)]
    ensures forall f: FrameNo :: f in m'.pool.owner ==>
              var o := m'.pool.owner[f];
              !OwnedBy(o, pid) && (o.Free? || Owned(m.pool, f, o) || (o.Abandoned? && Used(m', f, o)))
  {
    forall f: FrameNo | f in m'.pool.owner
      ensures var o := m'.pool.owner[f];
              !OwnedBy(o, pid) && (o.Free? || Owned(m.pool, f, o) || (o.Abandoned? && Used(m', f, o)))
    {
      assert Used(m, f, m.pool.owner[f]);
    }
  }

  lemma KillOthersKept(p: Pool, frames: seq<FrameNo>, q: Pool, pid: nat, pdt: FrameNo, o: Owner)
    requires Released(p, frames, q) && Owned(p, pdt, Directory(pid)) && !o.Free? && pdt !in frames
    requires forall f :: f in frames ==> f in p.owner && OwnedBy(p.owner[f], pid)
    ensures PoolInv(q.(owner := q.owner[pdt := o]))
    ensures OthersKept(p, q.(owner := q.owner[pdt := o]), pid)
  {
    assert pdt !in q.free;
  }

  // ----- stack growth -----

  /** q is p with one more page, frame leaf, in slot j of the stack table of process pid. */
  ghost predicate Grown(p: Pool, q: Pool, pid: nat, pdt: FrameNo, j: Slot, leaf: FrameNo) {
    && PoolInv(q) && !Held(p, leaf)
    && q.owner == p.owner[leaf := Leaf(pid, j)]
    && q.mem == Put(p.mem, TableOf(p, pdt), j, Entry(leaf, true, true))
    && Allocated(q) == Allocated(p) + 1 && Available(q) == Available(p) - 1
  }

  /** One turn of the loop takes a frame and enters it in the slot below the lowest page. */
  lemma GrowPageIs(p: Pool, kernelPt: FrameNo, pid: nat, pdt: FrameNo, lowest: Word) returns (j: Slot)
    requires Space(p, kernelPt, pid, pdt, lowest) && lowest > STACK_BASE
    ensures j == LowSlot(lowest) - 1 && lowest >= 4096
    ensures GrowPage(p, pid, pdt, lowest) ==
            if !CanAlloc(p) then None
            else
              var leaf := Alloc(p, Leaf(pid, j));
              Some(Growth(Write(leaf.pool, TableOf(p, pdt), j, Entry(leaf.frame, true, true)), lowest - 4096))
  {
    var i: Word := lowest - 4096;
    j := TableSlot(i);
    assert DirectorySlot(i) == 1 && j == LowSlot(lowest) - 1 && i / 4096 * 4096 == i;
    EntryFields(TableOf(p, pdt), true, true);
    assert StackSlot(p, pid, pdt, lowest, j);
    hide CanAlloc, Entry, Present, LargePage, StackSlot, TableSlot, DirectorySlot, FrameOf;
  }

  lemma GrowPageEffect(p: Pool, kernelPt: FrameNo, pid: nat, pdt: FrameNo, lowest: Word)
    requires PoolInv(p) && Space(p, kernelPt, pid, pdt, lowest) && lowest > STACK_BASE
    ensures GrowPage(p, pid, pdt, lowest).None? <==> Available(p) == 0
    ensures Available(p) > 0 ==>
              var g := GrowPage(p, pid, pdt, lowest).value;
              var j := LowSlot(lowest) - 1;
              && g.lowest == lowest - 4096
              && Grown(p, g.pool, pid, pdt, j, LeafOf(g.pool, pdt, j))
              && Space(g.pool, kernelPt, pid, pdt, g.lowest)
              && TableOf(g.pool, pdt) == TableOf(p, pdt)
              && (forall k: Slot :: LowSlot(lowest) <= k ==> LeafOf(g.pool, pdt, k) == LeafOf(p, pdt, k))
  {
    var j := GrowPageIs(p, kernelPt, pid, pdt, lowest);
    CanAllocIff(p);
    var table := TableOf(p, pdt);
    assert Owned(p, table, Table(pid));
    if CanAlloc(p) {
      AllocKeeps(p, Leaf(pid, j));
      var leaf := Alloc(p, Leaf(pid, j));
      WriteKeeps(leaf.pool, table, j, Entry(leaf.frame, true, true));
      hide PoolInv, Alloc, GrowPage, Space, Entry, LowSlot, LeafOf, CanAlloc;
      GrownSpace(p, GrowPage(p, pid, pdt, lowest).value.pool, kernelPt, pid, pdt, lowest, leaf.frame);
    }
  }

  lemma GrownSpace(p: Pool, q: Pool, kernelPt: FrameNo, pid: nat, pdt: FrameNo, lowest: Word, leaf: FrameNo)
    requires Space(p, kernelPt, pid, pdt, lowest) && lowest > STACK_BASE
    requires Grown(p, q, pid, pdt, LowSlot(lowest) - 1, leaf)
    ensures Space(q, kernelPt, pid, pdt, lowest - 4096)
    ensures TableOf(q, pdt) == TableOf(p, pdt) && LeafOf(q, pdt, LowSlot(lowest) - 1) == leaf
    ensures forall j: Slot :: LowSlot(lowest) <= j ==> LeafOf(q, pdt, j) == LeafOf(p, pdt, j)
  {
    EntryFields(leaf, true, true);
    assert q.mem[pdt] == p.mem[pdt];
    var low: Word := lowest - 4096;
    forall j: Slot ensures StackSlot(q, pid, pdt, low, j) {
      assert StackSlot(p, pid, pdt, lowest, j);
    }
  }

  /** The machine after the stack of process pid grew. */
  function Extended(m: Machine, pid: nat, g: Growth): Machine
    requires pid < |m.procs|
  {
    m.(pool := g.pool, procs := m.procs[pid := m.procs[pid].(lowest := g.lowest)])
  }

  ghost predicate Live(m: Machine, pid: nat) {
    pid < |m.procs| && m.procs[pid].pdt != 0
  }

  lemma GrowPageKeeps(m: Machine, pid: nat) returns (g: Growth)
    requires Inv(m) && Live(m, pid) && m.procs[pid].lowest > STACK_BASE && Available(m.pool) > 0
    ensures GrowPage(m.pool, pid, m.procs[pid].pdt, m.procs[pid].lowest) == Some(g)
    ensures g.lowest == m.procs[pid].lowest - 4096
    ensures Inv(Extended(m, pid, g))
    ensures Available(g.pool) == Available(m.pool) - 1
  {
    var pdt, lowest := m.procs[pid].pdt, m.procs[pid].lowest;
    SpaceOf(m, pid);
    var j: Slot, leaf: FrameNo;
    g, j, leaf := GrowPageGives(m.pool, m.kernelPt, pid, pdt, lowest);
    var m' := Extended(m, pid, g);
    assert m' == m.(pool := g.pool, procs := m.procs[pid := m.procs[pid].(lowest := lowest - 4096)]);
    hide *;
    GrownInv(m, m', pid, pdt, lowest, j, leaf);
  }

  lemma SpaceOf(m: Machine, pid: nat)
    requires Inv(m) && Live(m, pid)
    ensures PoolInv(m.pool) && Space(m.pool, m.kernelPt, pid, m.procs[pid].pdt, m.procs[pid].lowest)
    ensures Queued(m) && |m.abandoned| == m.kills
  {
  }

  lemma GrowPageGives(p: Pool, kernelPt: FrameNo, pid: nat, pdt: FrameNo, lowest: Word)
    returns (g: Growth, j: Slot, leaf: FrameNo)
    requires PoolInv(p) && Space(p, kernelPt, pid, pdt, lowest) && lowest > STACK_BASE && Available(p) > 0
    ensures GrowPage(p, pid, pdt, lowest) == Some(g) && g.lowest == lowest - 4096 && lowest % 4096 == 0
    ensures j == LowSlot(lowest) - 1 && leaf == LeafOf(g.pool, pdt, j) && Grown(p, g.pool, pid, pdt, j, leaf)
    ensures Space(g.pool, kernelPt, pid, pdt, g.lowest) && TableOf(g.pool, pdt) == TableOf(p, pdt)
    ensures Owned(p, TableOf(p, pdt), Table(pid)) && Available(g.pool) == Available(p) - 1
    ensures forall k: Slot :: LowSlot(lowest) <= k ==> LeafOf(g.pool, pdt, k) == LeafOf(p, pdt, k)
  {
    GrowPageEffect(p, kernelPt, pid, pdt, lowest);
    g, j := GrowPage(p, pid, pdt, lowest).value, LowSlot(lowest) - 1;
    leaf := LeafOf(g.pool, pdt, j);
    hide GrowPage, LeafOf, StackSlot;
  }

  lemma GrownInv(m: Machine, m': Machine, pid: nat, pdt: FrameNo, lowest: Word, j: Slot, leaf: FrameNo)
    requires Inv(m) && Live(m, pid) && pdt == m.procs[pid].pdt && lowest == m.procs[pid].lowest
    requires lowest > STACK_BASE && lowest % 4096 == 0 && j == LowSlot(lowest) - 1
    requires m' == m.(pool := m'.pool, procs := m.procs[pid := m.procs[pid].(lowest := lowest - 4096)])
    requires Grown(m.pool, m'.pool, pid, pdt, j, leaf) && LeafOf(m'.pool, pdt, j) == leaf
    requires TableOf(m'.pool, pdt) == TableOf(m.pool, pdt) && Owned(m.pool, TableOf(m.pool, pdt), Table(pid))
    requires Space(m'.pool, m.kernelPt, pid, pdt, lowest - 4096)
    requires forall k: Slot :: LowSlot(lowest) <= k ==> LeafOf(m'.pool, pdt, k) == LeafOf(m.pool, pdt, k)
    ensures Inv(m')
  {
    SpaceOf(m, pid);
    GrownUsed(m, m', pid, pdt, lowest, j, leaf);
    hide Inv;
    GrownOthersKept(m.pool, m'.pool, pid, pdt, j, leaf);
    assert FramesOf(m'.procs[pid]) == FramesOf(m.procs[pid]) + 1;
    Replace(m, m', pid);
  }

  lemma GrownUsed(m: Machine, m': Machine, pid: nat, pdt: FrameNo, lowest: Word, j: Slot, leaf: FrameNo)
    requires forall f: FrameNo :: f in m.pool.owner ==> Used(m, f, m.pool.owner[f])
    requires Live(m, pid) && pdt == m.procs[pid].pdt && lowest == m.procs[pid].lowest
    requires lowest > STACK_BASE && lowest % 4096 == 0 && j == LowSlot(lowest) - 1
    requires m' == m.(pool := m'.pool, procs := m.procs[pid := m.procs[pid].(lowest := lowest - 4096)])
    requires m'.pool.owner == m.pool.owner[leaf := Leaf(pid, j)] && LeafOf(m'.pool, pdt, j) == leaf
    requires TableOf(m'.pool, pdt) == TableOf(m.pool, pdt)
    requires forall k: Slot :: LowSlot(lowest) <= k ==> LeafOf(m'.pool, pdt, k) == LeafOf(m.pool, pdt, k)
    ensures forall f: FrameNo :: f in m'.pool.owner ==>
              var o := m'.pool.owner[f];
              if OwnedBy(o, pid) then Used(m', f, o) else Owned(m.pool, f, o)
  {
    forall f: FrameNo | f in m'.pool.owner
      ensures var o := m'.pool.owner[f];
              if OwnedBy(o, pid) then Used(m', f, o) else Owned(m.pool, f, o)
    {
      if f != leaf {
        assert Used(m, f, m.pool.owner[f]);
      }
    }
  }

  lemma GrownOthersKept(p: Pool, q: Pool, pid: nat, pdt: FrameNo, j: Slot, leaf: FrameNo)
    requires Grown(p, q, pid, pdt, j, leaf) && Owned(p, TableOf(p, pdt), Table(pid))
    ensures OthersKept(p, q, pid)
  {
  }

  /** The number of pages a stack fault at va asks for. */
  function PagesNeeded(lowest: Word, va: Word): int {
    if lowest <= va then 0 else (lowest - va / 4096 * 4096) / 4096
  }

  lemma PagesNeededStep(lowest: Word, va: Word)
    requires lowest % 4096 == 0 && va < lowest
    ensures va / 4096 * 4096 <= lowest - 4096
    ensures PagesNeeded(lowest - 4096, va) == PagesNeeded(lowest, va) - 1
    ensures lowest - 4096 <= va ==> lowest - 4096 == va / 4096 * 4096
  {
  }

  /** The loop of pagefault_handler runs out of frames iff fewer remain than pages are missing;
      otherwise the stack ends at the page of va. */
  lemma {:induction false} GrowKeeps(m: Machine, pid: nat, va: Word)
    requires Inv(m) && Live(m, pid) && IsStackFault(va)
    ensures var proc := m.procs[pid];
            var g := Grow(m.pool, pid, proc.pdt, proc.lowest, va);
            && (g.None? <==> Available(m.pool) < PagesNeeded(proc.lowest, va))
            && (g.Some? ==>
                  && g.value.lowest == (if proc.lowest <= va then proc.lowest else va / 4096 * 4096)
                  && Inv(Extended(m, pid, g.value)))
    decreases m.procs[pid].lowest
  {
    var proc := m.procs[pid];
    assert proc.lowest % 4096 == 0;
    if proc.lowest > va {
      PagesNeededStep(proc.lowest, va);
      if Available(m.pool) > 0 {
        var g := GrowPageKeeps(m, pid);
        GrowKeeps(Extended(m, pid, g), pid, va);
        ExtendedTwice(m, pid, g, Grow(g.pool, pid, proc.pdt, g.lowest, va));
      } else {
        GrowPageEffect(m.pool, m.kernelPt, pid, proc.pdt, proc.lowest);
      }
    } else {
      assert m.procs[pid := proc] == m.procs;
    }
  }

  lemma ExtendedTwice(m: Machine, pid: nat, g: Growth, h: Option<Growth>)
    requires pid < |m.procs|
    ensures h.Some? ==> Extended(Extended(m, pid, g), pid, h.value) == Extended(m, pid, h.value)
  {
  }

  // ----- stores by the running process -----

  /** A step that writes only into a stack page, or outside the page space, keeps the invariant. */
  lemma WritesDataKeeps(m: Machine, m': Machine, data: FrameNo)
    requires Inv(m) && PoolInv(m'.pool)
    requires data in m.pool.owner ==> m.pool.owner[data].Leaf?
    requires m' == m.(pool := m.pool.(mem := m'.pool.mem))
    requires forall f: FrameNo :: f != data ==> m'.pool.mem[f] == m.pool.mem[f]
    ensures Inv(m')
  {
    forall i: nat | Live(m', i) ensures Space(m'.pool, m.kernelPt, i, m'.procs[i].pdt, m'.procs[i].lowest) {
      SpaceUndisturbed(m.pool, m'.pool, m.kernelPt, i, m.procs[i].pdt, m.procs[i].lowest);
    }
    forall f: FrameNo | f in m'.pool.owner ensures Used(m', f, m'.pool.owner[f]) {
      WritesDataUsed(m, m', data, f);
    }
  }

  lemma WritesDataUsed(m: Machine, m': Machine, data: FrameNo, f: FrameNo)
    requires Inv(m) && f in m.pool.owner
    requires data in m.pool.owner ==> m.pool.owner[data].Leaf?
    requires m' == m.(pool := m.pool.(mem := m'.pool.mem))
    requires forall f: FrameNo :: f != data ==> m'.pool.mem[f] == m.pool.mem[f]
    ensures Used(m', f, m'.pool.owner[f])
  {
    var o := m.pool.owner[f];
    assert Used(m, f, o);
    if o.Table? || o.Leaf? {
      SpaceUndisturbed(m.pool, m'.pool, m.kernelPt, o.pid, m.procs[o.pid].pdt, m.procs[o.pid].lowest);
    }
  }

  /** Every process reaches exactly its own stack pages at and above `lowest`. */
  lemma TranslateStack(p: Pool, kernelPt: FrameNo, pid: nat, pdt: FrameNo, lowest: Word, va: Word)
    requires Space(p, kernelPt, pid, pdt, lowest) && IsStackFault(va)
    ensures Translate(p.mem, pdt, va) ==
            if lowest <= va then Some(Mapping(LeafOf(p, pdt, TableSlot(va)) * 4096 + va % 4096, true, true)) else None
  {
    assert DirectorySlot(va) == 1 && TableSlot(va) == (va - STACK_BASE) / 4096;
    EntryFields(TableOf(p, pdt), true, true);
    assert StackSlot(p, pid, pdt, lowest, TableSlot(va));
    EntryFields(LeafOf(p, pdt, TableSlot(va)), true, true);
  }

  /** The first 4 MiB translate to themselves; user mode may use pages 7 to 0x7F. */
  lemma TranslateLow(p: Pool, kernelPt: FrameNo, pid: nat, pdt: FrameNo, lowest: Word, va: Word)
    requires Space(p, kernelPt, pid, pdt, lowest) && p.mem[kernelPt] == KernelPage() && va < STACK_BASE
    ensures Translate(p.mem, pdt, va) == Some(Mapping(va, true, 0x7000 <= va < 0x8_0000))
  {
    assert DirectorySlot(va) == 0 && TableSlot(va) == va / 4096;
    EntryFields(kernelPt, true, true);
    assert p.mem[kernelPt][TableSlot(va)] == KernelEntry(TableSlot(va));
    EntryFields(TableSlot(va), true, 7 <= TableSlot(va) < 0x80);
  }

  lemma TranslateHigh(p: Pool, kernelPt: FrameNo, pid: nat, pdt: FrameNo, lowest: Word, va: Word)
    requires Space(p, kernelPt, pid, pdt, lowest) && va >= STACK_TOP
    ensures Translate(p.mem, pdt, va) == None
  {
    assert p.mem[pdt][DirectorySlot(va)] == 0;
  }

  /** The frame a store of the running process goes to. */
  function StoreFrame(m: Machine, va: Word): FrameNo
    requires Running(m)
  {
    if va >= STACK_BASE then LeafOf(m.pool, Current(m).pdt, TableSlot(va)) else va / 4096
  }

  /** A store goes to a stack page of the running process or, below 4 MiB, to a frame that belongs to nobody. */
  lemma StoreKeeps(m: Machine, va: Word, value: Word)
    requires Inv(m) && Enabled(m, UserStore(va, value))
    ensures Inv(Store(m, va, value))
    ensures Store(m, va, value).pool.mem == Put(m.pool.mem, StoreFrame(m, va), va % 4096 / 4, value)
    ensures if va >= STACK_BASE then
              && Current(m).lowest <= va < STACK_TOP
              && Owned(m.pool, StoreFrame(m, va), Leaf(m.queue[0], TableSlot(va)))
            else
              0x7000 <= va < 0x8_0000 && StoreFrame(m, va) !in m.pool.owner
  {
    var pid, proc, f := m.queue[0], Current(m), StoreFrame(m, va);
    StoreLands(m, va, value);
    WriteKeeps(m.pool, f, va % 4096 / 4, value);
    WritesDataKeeps(m, Store(m, va, value), f);
  }

  lemma StoreLands(m: Machine, va: Word, value: Word)
    requires Inv(m) && Enabled(m, UserStore(va, value))
    ensures Store(m, va, value) == m.(pool := Write(m.pool, StoreFrame(m, va), va % 4096 / 4, value))
    ensures if va >= STACK_BASE then
              && Current(m).lowest <= va < STACK_TOP
              && Owned(m.pool, StoreFrame(m, va), Leaf(m.queue[0], TableSlot(va)))
            else
              0x7000 <= va < 0x8_0000 && StoreFrame(m, va) !in m.pool.owner
  {
    var pid, proc := m.queue[0], Current(m);
    SpaceOf(m, pid);
    assert m.pool.mem[m.kernelPt] == KernelPage();
    hide Inv;
    if va >= STACK_BASE {
      StackAccess(m.pool, m.kernelPt, pid, proc.pdt, proc.lowest, va);
    } else {
      TranslateLow(m.pool, m.kernelPt, pid, proc.pdt, proc.lowest, va);
    }
  }

  lemma StackAccess(p: Pool, kernelPt: FrameNo, pid: nat, pdt: FrameNo, lowest: Word, va: Word)
    requires Space(p, kernelPt, pid, pdt, lowest) && STACK_BASE <= va && UserAccess(p.mem, pdt, va, true)
    ensures lowest <= va < STACK_TOP
    ensures Owned(p, LeafOf(p, pdt, TableSlot(va)), Leaf(pid, TableSlot(va)))
    ensures var physical := Translate(p.mem, pdt, va).value.physical;
            FrameOf(physical) == LeafOf(p, pdt, TableSlot(va)) && physical % 4096 == va % 4096
  {
    if va >= STACK_TOP {
      TranslateHigh(p, kernelPt, pid, pdt, lowest, va);
    } else {
      TranslateStack(p, kernelPt, pid, pdt, lowest, va);
      StackPageOwned(p, kernelPt, pid, pdt, lowest, TableSlot(va));
    }
  }

  lemma StackPageOwned(p: Pool, kernelPt: FrameNo, pid: nat, pdt: FrameNo, lowest: Word, j: Slot)
    requires Space(p, kernelPt, pid, pdt, lowest) && LowSlot(lowest) <= j
    ensures Owned(p, LeafOf(p, pdt, j), Leaf(pid, j))
  {
    assert StackSlot(p, pid, pdt, lowest, j);
  }

  // ----- every step, every run -----

  lemma StepKeeps(m: Machine, e: Event)
    requires Inv(m) && Enabled(m, e)
    ensures Step(m, e).Some? ==> Inv(Step(m, e).value)
  {
    match e
    case Enqueue(executable) => EnqueueKeeps(m, executable);
    case Switch => SwitchKeeps(m);
    case Exit => KillKeeps(m); SwitchKeeps(Kill(m));
    case UserStore(va, value) => StoreKeeps(m, va, value);
    case UserFault(va) =>
      if IsStackFault(va) {
        GrowKeeps(m, m.queue[0], va);
      } else {
        KillKeeps(m);
        SwitchKeeps(Kill(m));
      }
  }

  lemma {:induction false} RunsSnoc(m: Machine, run: seq<Event>, m': Machine, e: Event, m'': Machine)
    requires Runs(m, run, m') && Enabled(m', e) && Step(m', e) == Some(m'')
    ensures Runs(m, run + [e], m'')
    decreases |run|
  {
    if run == [] {
      assert ([] + [e])[1..] == [];
      assert Runs(m'', [], m'');
    } else {
      assert (run + [e])[1..] == run[1..] + [e];
      RunsSnoc(Step(m, run[0]).value, run[1..], m', e, m'');
    }
  }

  lemma {:induction false} RunKeeps(m: Machine, run: seq<Event>, m': Machine)
    requires Inv(m) && Runs(m, run, m')
    ensures Inv(m')
    decreases |run|
  {
    if run != [] {
      StepKeeps(m, run[0]);
      RunKeeps(Step(m, run[0]).value, run[1..], m');
    }
  }
}

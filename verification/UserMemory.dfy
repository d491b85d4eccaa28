/** What a process finds at its addresses: the word it stored there last, whatever the other processes and the
    kernel did in between. */
module UserMemory {
  import opened Words
  import opened Frames
  import opened Paging
  import opened ContextFrame
  import opened RotatingQueue
  import opened Processes
  import opened ProcessInvariant
  import opened ProcessTheorems
  import opened ProcessHistory

  /** The word the processor reads at an address. */
  function UserWord(mem: Memory, pdt: FrameNo, a: Word): Option<Word> {
    match Translate(mem, pdt, a)
    case None => None
    case Some(t) => Some(mem[FrameOf(t.physical)][t.physical % 4096 / 4])
  }

  lemma UserWordIs(p: Pool, kernelPt: FrameNo, pid: nat, pdt: FrameNo, lowest: Word, a: Word)
    requires Space(p, kernelPt, pid, pdt, lowest) && p.mem[kernelPt] == KernelPage()
    ensures a < STACK_BASE ==> UserWord(p.mem, pdt, a) == Some(p.mem[a / 4096][a % 4096 / 4])
    ensures lowest <= a < STACK_TOP ==>
              UserWord(p.mem, pdt, a) == Some(p.mem[LeafOf(p, pdt, TableSlot(a))][a % 4096 / 4])
  {
    if a < STACK_BASE {
      TranslateLow(p, kernelPt, pid, pdt, lowest, a);
    } else if a < STACK_TOP {
      TranslateStack(p, kernelPt, pid, pdt, lowest, a);
      PhysicalParts(LeafOf(p, pdt, TableSlot(a)), a);
    }
    hide Space, LeafOf, Translate;
  }

  lemma PhysicalParts(f: FrameNo, a: Word)
    ensures FrameOf(f * 4096 + a % 4096) == f && (f * 4096 + a % 4096) % 4096 == a % 4096
  {
  }

  // ----- data that a step leaves alone -----

  /** The low memory all share, and the stack pages of one process. */
  ghost predicate DataKept(p: Pool, q: Pool, pdt: FrameNo, lowest: Word) {
    && (forall f: FrameNo :: f < FIRST_FRAME ==> q.mem[f] == p.mem[f])
    && (forall j: Slot :: LowSlot(lowest) <= j ==>
          LeafOf(q, pdt, j) == LeafOf(p, pdt, j) && q.mem[LeafOf(p, pdt, j)] == p.mem[LeafOf(p, pdt, j)])
  }

  /** The frames of process pid, and those outside the page space, hold what they held. */
  ghost predicate FramesSame(p: Pool, q: Pool, pid: nat) {
    forall f: FrameNo :: f < FIRST_FRAME || (f in p.owner && OwnedBy(p.owner[f], pid)) ==> q.mem[f] == p.mem[f]
  }

  lemma SameFramesKeepData(p: Pool, q: Pool, kernelPt: FrameNo, pid: nat, pdt: FrameNo, lowest: Word)
    requires Space(p, kernelPt, pid, pdt, lowest) && FramesSame(p, q, pid)
    ensures DataKept(p, q, pdt, lowest)
  {
    assert OwnedBy(p.owner[pdt], pid) && OwnedBy(p.owner[TableOf(p, pdt)], pid);
    forall j: Slot | LowSlot(lowest) <= j
      ensures LeafOf(q, pdt, j) == LeafOf(p, pdt, j) && q.mem[LeafOf(p, pdt, j)] == p.mem[LeafOf(p, pdt, j)]
    {
      StackPageOwned(p, kernelPt, pid, pdt, lowest, j);
    }
  }

  lemma DataKeptTwice(p: Pool, q: Pool, r: Pool, pdt: FrameNo, lowest: Word, lower: Word)
    requires DataKept(p, q, pdt, lowest) && DataKept(q, r, pdt, lower) && LowSlot(lower) <= LowSlot(lowest)
    ensures DataKept(p, r, pdt, lowest)
  {
  }

  lemma KeptWord(m: Machine, m': Machine, q: nat, a: Word)
    requires Inv(m) && Inv(m') && Live(m, q) && Live(m', q)
    requires m'.procs[q].pdt == m.procs[q].pdt && m'.procs[q].lowest <= m.procs[q].lowest
    requires DataKept(m.pool, m'.pool, m.procs[q].pdt, m.procs[q].lowest)
    requires a < STACK_BASE || m.procs[q].lowest <= a < STACK_TOP
    ensures UserWord(m'.pool.mem, m.procs[q].pdt, a) == UserWord(m.pool.mem, m.procs[q].pdt, a)
  {
    SpaceOf(m, q);
    SpaceOf(m', q);
    assert m.pool.mem[m.kernelPt] == KernelPage() && m'.pool.mem[m'.kernelPt] == KernelPage();
    hide Inv, UserWord;
    UserWordIs(m.pool, m.kernelPt, q, m.procs[q].pdt, m.procs[q].lowest, a);
    UserWordIs(m'.pool, m'.kernelPt, q, m.procs[q].pdt, m'.procs[q].lowest, a);
    if a >= STACK_BASE {
      assert LowSlot(m.procs[q].lowest) <= TableSlot(a);
    }
  }

  // ----- step by step -----

  lemma SwitchKeepsData(m: Machine, q: nat)
    requires Inv(m) && m.queue != [] && Live(m, q) && SwitchProcess(m).Some?
    ensures var m' := SwitchProcess(m).value;
            && Inv(m') && Live(m', q) && m'.procs[q] == m.procs[q]
            && DataKept(m.pool, m'.pool, m.procs[q].pdt, m.procs[q].lowest)
  {
    SwitchEffect(m);
    SpaceOf(m, q);
    var next := m.queue[if |m.queue| > 1 then 1 else 0];
    if m.procs[next].pdt == 0 {
      NextIs(m);
      SwitchKeepsFrames(m, next, q);
    }
    hide Inv, SwitchProcess, Available;
    SameFramesKeepData(m.pool, SwitchProcess(m).value.pool, m.kernelPt, q, m.procs[q].pdt, m.procs[q].lowest);
  }

  lemma SwitchKeepsFrames(m: Machine, next: nat, q: nat)
    requires Inv(m) && m.queue != [] && SwitchProcess(m).Some? && q != next
    requires next == Rotate(m.queue)[0] && next < |m.procs| && m.procs[next].pdt == 0
    ensures FramesSame(m.pool, SwitchProcess(m).value.pool, q)
  {
    assert PoolInv(m.pool);
    SwitchKeeps(m);
    hide Inv, Create, Available, Created;
    var dir, table, leaf, p := CreateFrames(m.pool, next, Entry(m.kernelPt, true, true));
    CreatedKeepsFrames(m.pool, p, next, dir, table, leaf, q);
    hide Entry, PoolInv;
  }

  lemma CreatedKeepsFrames(p: Pool, q: Pool, pid: nat, dir: FrameNo, table: FrameNo, leaf: FrameNo, other: nat)
    requires Created(p, q, pid, dir, table, leaf) && PoolInv(q)
    ensures FramesSame(p, q, other)
  {
    assert dir in q.owner && table in q.owner;
  }

  lemma KillKeepsData(m: Machine, q: nat)
    requires Inv(m) && Running(m) && Live(m, q) && q != m.queue[0]
    ensures Inv(Kill(m)) && Live(Kill(m), q) && Kill(m).procs[q] == m.procs[q]
    ensures DataKept(m.pool, Kill(m).pool, m.procs[q].pdt, m.procs[q].lowest)
  {
    KillKeeps(m);
    SpaceOf(m, q);
    SpaceOf(m, m.queue[0]);
    KillKeepsFrames(m, q);
    hide Inv, ReleaseAll, Walk;
    SameFramesKeepData(m.pool, Kill(m).pool, m.kernelPt, q, m.procs[q].pdt, m.procs[q].lowest);
  }

  lemma KillKeepsFrames(m: Machine, q: nat)
    requires Inv(m) && Running(m) && q != m.queue[0]
    ensures FramesSame(m.pool, Kill(m).pool, q)
  {
    var p, proc := m.pool, Current(m);
    var frames := Walk(p.mem, proc.pdt, 1024);
    SpaceOf(m, m.queue[0]);
    hide Inv;
    SpaceReleasable(p, m.kernelPt, m.queue[0], proc.pdt, proc.lowest);
    ReleaseAllEffect(p, frames);
    assert Kill(m).pool.mem == ReleaseAll(p, frames).mem;
    hide Walk, ReleaseAll, Kill, Space;
    assert forall f: FrameNo :: f in p.owner ==> f >= FIRST_FRAME;
  }

  lemma GrowPageKeepsData(m: Machine, pid: nat, g: Growth, q: nat)
    requires Inv(m) && Live(m, pid) && m.procs[pid].lowest > STACK_BASE && Available(m.pool) > 0 && Live(m, q)
    requires GrowPage(m.pool, pid, m.procs[pid].pdt, m.procs[pid].lowest) == Some(g)
    ensures DataKept(m.pool, g.pool, m.procs[q].pdt, m.procs[q].lowest)
  {
    SpaceOf(m, pid);
    SpaceOf(m, q);
    hide Inv;
    var p, pdt, lowest := m.pool, m.procs[pid].pdt, m.procs[pid].lowest;
    GrowPageEffect(p, m.kernelPt, pid, pdt, lowest);
    var table := TableOf(p, pdt);
    assert Owned(p, table, Table(pid)) && table >= FIRST_FRAME;
    assert forall f: FrameNo :: f != table ==> g.pool.mem[f] == p.mem[f];
    if q == pid {
      forall j: Slot | LowSlot(lowest) <= j ensures g.pool.mem[LeafOf(p, pdt, j)] == p.mem[LeafOf(p, pdt, j)] {
        StackPageOwned(p, m.kernelPt, pid, pdt, lowest, j);
      }
    } else {
      SameFramesKeepData(p, g.pool, m.kernelPt, q, m.procs[q].pdt, m.procs[q].lowest);
    }
    hide GrowPage, Space, Grown;
  }

  lemma {:induction false} GrowKeepsData(m: Machine, pid: nat, va: Word, q: nat)
    requires Inv(m) && Live(m, pid) && IsStackFault(va) && Live(m, q)
    requires Grow(m.pool, pid, m.procs[pid].pdt, m.procs[pid].lowest, va).Some?
    ensures var g := Grow(m.pool, pid, m.procs[pid].pdt, m.procs[pid].lowest, va).value;
            DataKept(m.pool, g.pool, m.procs[q].pdt, m.procs[q].lowest)
    decreases m.procs[pid].lowest
  {
    var proc := m.procs[pid];
    if proc.lowest > va {
      SpaceOf(m, pid);
      PagesNeededStep(proc.lowest, va);
      GrowPageEffect(m.pool, m.kernelPt, pid, proc.pdt, proc.lowest);
      var g := GrowPageKeeps(m, pid);
      hide Inv, GrowPage, Space, Grown, DataKept;
      GrowPageKeepsData(m, pid, g, q);
      GrowKeepsData(Extended(m, pid, g), pid, va, q);
      DataKeptTwice(m.pool, g.pool, Grow(g.pool, pid, proc.pdt, g.lowest, va).value.pool, m.procs[q].pdt,
                    m.procs[q].lowest, Extended(m, pid, g).procs[q].lowest);
    } else {
      hide Inv;
    }
  }

  // ----- what is read -----

  /** The event stores to the word at a, as process q sees it: q itself stores there, or any process does,
      in the low memory all share. */
  predicate Hits(m: Machine, e: Event, q: nat, a: Word) {
    e.UserStore? && a / 4 == e.va / 4 && m.queue != [] && (q == m.queue[0] || a < 0x40_0000)
  }

  /** The addresses process q can use. */
  predicate InReach(m: Machine, q: nat, a: Word)
    requires q < |m.procs|
  {
    0x7000 <= a < 0x8_0000 || m.procs[q].lowest <= a < 0x80_0000
  }

  lemma SameWordIff(a: Word, b: Word)
    ensures a / 4 == b / 4 <==> a / 4096 == b / 4096 && a % 4096 / 4 == b % 4096 / 4
  {
    WordInPage(a);
    WordInPage(b);
  }

  lemma WordInPage(a: Word)
    ensures a / 4 == a / 4096 * 1024 + a % 4096 / 4 && 0 <= a % 4096 / 4 < 1024
  {
  }

  lemma StoreWord(m: Machine, e: Event, q: nat, a: Word)
    requires Inv(m) && e.UserStore? && Enabled(m, e) && Live(m, q) && InReach(m, q, a)
    ensures var m' := Store(m, e.va, e.value);
            && Inv(m') && m'.procs == m.procs
            && UserWord(m'.pool.mem, m.procs[q].pdt, a) ==
               if Hits(m, e, q, a) then Some(e.value) else UserWord(m.pool.mem, m.procs[q].pdt, a)
  {
    var m' := Store(m, e.va, e.value);
    StoreKeeps(m, e.va, e.value);
    StoreHits(m, e, q, a);
    StoreKeepsLeaf(m, e.va, e.value, q, a);
    assert m'.procs == m.procs && Live(m', q) && InReach(m', q, a);
    hide *;
    UserWordFor(m, q, a);
    UserWordFor(m', q, a);
    PutWord(m.pool.mem, StoreFrame(m, e.va), e.va % 4096 / 4, e.value, FrameFor(m, q, a), a % 4096 / 4);
  }

  lemma PutWord(mem: Memory, f: FrameNo, i: Slot, w: Word, g: FrameNo, j: Slot)
    ensures Put(mem, f, i, w)[g][j] == if f == g && i == j then w else mem[g][j]
  {
  }

  lemma UserWordFor(m: Machine, q: nat, a: Word)
    requires Inv(m) && Live(m, q) && InReach(m, q, a)
    ensures UserWord(m.pool.mem, m.procs[q].pdt, a) == Some(m.pool.mem[FrameFor(m, q, a)][a % 4096 / 4])
  {
    SpaceOf(m, q);
    assert m.pool.mem[m.kernelPt] == KernelPage();
    hide Inv, UserWord, Space;
    UserWordIs(m.pool, m.kernelPt, q, m.procs[q].pdt, m.procs[q].lowest, a);
  }

  /** The frame that holds the word at a, for process q. */
  function FrameFor(m: Machine, q: nat, a: Word): FrameNo
    requires q < |m.procs|
  {
    if a < STACK_BASE then a / 4096 else LeafOf(m.pool, m.procs[q].pdt, TableSlot(a))
  }

  lemma StoreKeepsLeaf(m: Machine, va: Word, value: Word, q: nat, a: Word)
    requires Inv(m) && Enabled(m, UserStore(va, value)) && Live(m, q) && InReach(m, q, a)
    ensures FrameFor(Store(m, va, value), q, a) == FrameFor(m, q, a)
  {
    StoreKeeps(m, va, value);
    SpaceOf(m, q);
    var f := StoreFrame(m, va);
    assert f != m.procs[q].pdt && f != TableOf(m.pool, m.procs[q].pdt);
    hide Inv, Space;
  }

  lemma StoreHits(m: Machine, e: Event, q: nat, a: Word)
    requires Inv(m) && e.UserStore? && Enabled(m, e) && Live(m, q) && InReach(m, q, a)
    ensures Hits(m, e, q, a) <==> FrameFor(m, q, a) == StoreFrame(m, e.va) && a % 4096 / 4 == e.va % 4096 / 4
  {
    StoreKeeps(m, e.va, e.value);
    FrameForOwner(m, q, a);
    SameWordIff(a, e.va);
    var p, f, g, b, r := m.pool, FrameFor(m, q, a), StoreFrame(m, e.va), e.va, m.queue[0];
    assert OwnedOrLow(p, g, r, b) && OwnedOrLow(p, f, q, a);
    assert Hits(m, e, q, a) <==> a / 4 == b / 4 && (q == r || a < 0x40_0000);
    assert a >= STACK_BASE && a / 4096 == b / 4096 && q == r ==> f == g by {
      if a >= STACK_BASE {
        SlotIsPage(a, b);
      }
    }
    hide *;
    SameFrameIff(p, f, q, a, g, r, b);
  }

  /** f is the frame for address a: a page of process pid, or low memory. */
  ghost predicate OwnedOrLow(p: Pool, f: FrameNo, pid: nat, a: Word) {
    if a < STACK_BASE then f == a / 4096 && f !in p.owner
    else a < STACK_TOP && Owned(p, f, Leaf(pid, TableSlot(a)))
  }

  lemma SameFrameIff(p: Pool, f: FrameNo, q: nat, a: Word, g: FrameNo, r: nat, b: Word)
    requires OwnedOrLow(p, f, q, a) && OwnedOrLow(p, g, r, b)
    ensures a / 4096 == b / 4096 && f == g ==> q == r || a < STACK_BASE
    ensures f == g ==> a / 4096 == b / 4096
    ensures a / 4096 == b / 4096 && (q == r || a < STACK_BASE) && a < STACK_BASE ==> f == g
  {
    if a >= STACK_BASE {
      SlotIsPage(a, b);
    }
  }

  lemma FrameForOwner(m: Machine, q: nat, a: Word)
    requires Inv(m) && Live(m, q) && InReach(m, q, a)
    ensures OwnedOrLow(m.pool, FrameFor(m, q, a), q, a)
  {
    SpaceOf(m, q);
    if a >= STACK_BASE {
      StackPageOwned(m.pool, m.kernelPt, q, m.procs[q].pdt, m.procs[q].lowest, TableSlot(a));
    }
    hide Inv, Space, LeafOf;
  }

  /** In the stack area a page and its slot in the table determine one another. */
  lemma SlotIsPage(a: Word, b: Word)
    requires STACK_BASE <= a < STACK_TOP
    ensures STACK_BASE <= b < STACK_TOP ==> (TableSlot(a) == TableSlot(b) <==> a / 4096 == b / 4096)
    ensures b < STACK_BASE || b >= STACK_TOP ==> a / 4096 != b / 4096
  {
  }

  /** Whatever happens in one step to a machine, every other process than the one killed in it keeps its
      address space, its program and its context, and reads at each of its addresses what it read before,
      except for the word that was stored. */
  lemma MemoryIsAsStored(m: Machine, e: Event, q: nat, a: Word)
    requires Reachable(m) && Enabled(m, e) && Step(m, e).Some?
    requires Live(m, q) && !(IsKill(e) && q == m.queue[0]) && InReach(m, q, a)
    ensures var m' := Step(m, e).value;
            && Live(m', q) && InReach(m', q, a)
            && m'.procs[q] == m.procs[q].(lowest := m'.procs[q].lowest)
            && (m'.procs[q].lowest == m.procs[q].lowest || (e.UserFault? && q == m.queue[0]))
            && UserWord(m'.pool.mem, m.procs[q].pdt, a) ==
               if Hits(m, e, q, a) then Some(e.value) else UserWord(m.pool.mem, m.procs[q].pdt, a)
  {
    ReachableInv(m);
    if IsKill(e) {
      KillingStep(m, e);
      KilledKeepsWords(m, q, a);
    } else if e.UserStore? {
      StoreWord(m, e, q, a);
    } else if e.Enqueue? {
    } else {
      QuietKeepsWords(m, e, q, a);
    }
    hide *;
  }

  lemma KilledKeepsWords(m: Machine, q: nat, a: Word)
    requires Inv(m) && Running(m) && Live(m, q) && q != m.queue[0] && InReach(m, q, a)
    requires Kill(m).queue != [] ==> SwitchProcess(Kill(m)).Some?
    ensures Kill(m).queue != []
    ensures var m' := SwitchProcess(Kill(m)).value;
            && Live(m', q) && m'.procs[q] == m.procs[q] && InReach(m', q, a)
            && UserWord(m'.pool.mem, m.procs[q].pdt, a) == UserWord(m.pool.mem, m.procs[q].pdt, a)
  {
    KillKeepsData(m, q);
    KillKeeps(m);
    var k := Kill(m);
    hide Inv, Kill, DataKept, UserWord;
    SwitchKeepsData(k, q);
    KeptWord(m, k, q, a);
    KeptWord(k, SwitchProcess(k).value, q, a);
    hide SwitchProcess;
  }

  /** A switch, and a fault in the stack area. */
  lemma QuietKeepsWords(m: Machine, e: Event, q: nat, a: Word)
    requires Inv(m) && Enabled(m, e) && Step(m, e).Some? && !IsKill(e) && (e.Switch? || e.UserFault?)
    requires Live(m, q) && InReach(m, q, a)
    ensures var m' := Step(m, e).value;
            && Live(m', q) && InReach(m', q, a)
            && m'.procs[q] == m.procs[q].(lowest := m'.procs[q].lowest)
            && (m'.procs[q].lowest == m.procs[q].lowest || (e.UserFault? && q == m.queue[0]))
            && UserWord(m'.pool.mem, m.procs[q].pdt, a) == UserWord(m.pool.mem, m.procs[q].pdt, a)
  {
    var m' := Step(m, e).value;
    if e.Switch? {
      SwitchKeepsData(m, q);
    } else {
      StepKeeps(m, e);
      GrowKeeps(m, m.queue[0], e.va);
      GrowKeepsData(m, m.queue[0], e.va, q);
      assert m'.procs[m.queue[0]].lowest <= m.procs[m.queue[0]].lowest;
    }
    hide Inv, SwitchProcess, Grow, DataKept, UserWord;
    KeptWord(m, m', q, a);
  }

  // ----- over whole runs -----

  /** Process q is not killed in the run. */
  ghost predicate Survives(m: Machine, run: seq<Event>, m': Machine, q: nat)
    requires Runs(m, run, m')
    decreases |run|
  {
    run == [] || (!(IsKill(run[0]) && m.queue != [] && q == m.queue[0]) &&
                  Survives(Step(m, run[0]).value, run[1..], m', q))
  }

  /** The last word stored at a in the run, as process q sees it; w if there is none. */
  ghost function LastStored(m: Machine, run: seq<Event>, m': Machine, q: nat, a: Word, w: Option<Word>): Option<Word>
    requires Runs(m, run, m')
    decreases |run|
  {
    if run == [] then w
    else LastStored(Step(m, run[0]).value, run[1..], m', q, a,
                    if Hits(m, run[0], q, a) then Some(run[0].value) else w)
  }

  /** Over every run in which it is not killed, a process keeps its address space, and finds at each of its
      addresses the word that was stored there last, or else the word it found at the beginning. */
  lemma {:induction false} MemoryOverRuns(m: Machine, run: seq<Event>, m': Machine, q: nat, a: Word)
    requires Reachable(m) && Runs(m, run, m') && Live(m, q) && Survives(m, run, m', q) && InReach(m, q, a)
    ensures Live(m', q) && InReach(m', q, a) && m'.procs[q].pdt == m.procs[q].pdt
    ensures UserWord(m'.pool.mem, m.procs[q].pdt, a) ==
            LastStored(m, run, m', q, a, UserWord(m.pool.mem, m.procs[q].pdt, a))
    decreases |run|
  {
    if run != [] {
      var m1 := Step(m, run[0]).value;
      assert IsKill(run[0]) ==> m.queue != [];
      hide Step, Enabled, UserWord, Live, InReach, Reachable, Hits, IsKill;
      MemoryIsAsStored(m, run[0], q, a);
      ReachableStep(m, run[0]);
      MemoryOverRuns(m1, run[1..], m', q, a);
    }
  }
}

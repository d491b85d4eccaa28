/** What holds of every reachable machine: ownership of frames, conservation, access rights,
    the effect of a stack fault, and the bound on kills. */
module ProcessTheorems {
  import opened Words
  import opened Frames
  import opened Paging
  import opened ContextFrame
  import opened RotatingQueue
  import opened Processes
  import opened ProcessInvariant

  ghost predicate Reachable(m: Machine) {
    exists mem: Memory, imageEnd: Word, run: seq<Event> :: Runs(Boot(mem, imageEnd), run, m)
  }

  lemma ReachableInv(m: Machine)
    requires Reachable(m)
    ensures Inv(m)
  {
    var mem: Memory, imageEnd: Word, run :| Runs(Boot(mem, imageEnd), run, m);
    BootKeeps(mem, imageEnd);
    RunKeeps(Boot(mem, imageEnd), run, m);
  }

  lemma ReachableStep(m: Machine, e: Event)
    requires Reachable(m) && Enabled(m, e) && Step(m, e).Some?
    ensures Reachable(Step(m, e).value)
  {
    var mem: Memory, imageEnd: Word, run :| Runs(Boot(mem, imageEnd), run, m);
    RunsSnoc(Boot(mem, imageEnd), run, m, e, Step(m, e).value);
  }

  lemma BootIsReachable(mem: Memory, imageEnd: Word)
    ensures Reachable(Boot(mem, imageEnd))
  {
    assert Runs(Boot(mem, imageEnd), [], Boot(mem, imageEnd));
  }

  // ----- ownership -----

  /** f is the directory of process pid, or a frame its page tables lead free_VAS to. */
  ghost predicate InUse(m: Machine, pid: nat, f: FrameNo) {
    Live(m, pid) && (f == m.procs[pid].pdt || f in Walk(m.pool.mem, m.procs[pid].pdt, 1024))
  }

  lemma InUseOwned(m: Machine, pid: nat, f: FrameNo)
    requires Inv(m)
    ensures InUse(m, pid, f) <==> f in m.pool.owner && OwnedBy(m.pool.owner[f], pid)
  {
    if Live(m, pid) {
      SpaceOf(m, pid);
      SpaceReleasable(m.pool, m.kernelPt, pid, m.procs[pid].pdt, m.procs[pid].lowest);
    }
    if f in m.pool.owner {
      assert Used(m, f, m.pool.owner[f]);
    }
  }

  /** Every frame between the start of the page space and the edge is exactly one of: on the free
      list, the kernel table, in one live process, an abandoned directory; no other frame is any. */
  lemma FramesArePartitioned(m: Machine, f: FrameNo)
    requires Reachable(m)
    ensures 0x400 <= f < m.pool.edge <==>
            f in m.pool.free || f == m.kernelPt || f in m.abandoned || exists pid: nat :: InUse(m, pid, f)
    ensures f in m.pool.free ==> f != m.kernelPt && f !in m.abandoned && forall pid: nat :: !InUse(m, pid, f)
    ensures f == m.kernelPt ==> f !in m.abandoned && forall pid: nat :: !InUse(m, pid, f)
    ensures f in m.abandoned ==> forall pid: nat :: !InUse(m, pid, f)
    ensures forall p: nat, q: nat :: InUse(m, p, f) && InUse(m, q, f) ==> p == q
  {
    ReachableInv(m);
    forall pid: nat ensures InUse(m, pid, f) <==> f in m.pool.owner && OwnedBy(m.pool.owner[f], pid) {
      InUseOwned(m, pid, f);
    }
    if f in m.pool.owner {
      var o := m.pool.owner[f];
      assert Used(m, f, o);
      if o.Directory? || o.Table? || o.Leaf? {
        assert InUse(m, o.pid, f);
      }
    }
  }

  /** No list of the partition names a frame twice, and the in-memory list is the free part. */
  lemma PartsHaveNoDuplicates(m: Machine)
    requires Reachable(m)
    ensures NoDup(m.pool.free) && NoDup(m.abandoned) && Chained(m.pool.mem, m.pool.head, m.pool.free)
    ensures forall pid: nat :: Live(m, pid) ==>
              NoDup([m.procs[pid].pdt] + Walk(m.pool.mem, m.procs[pid].pdt, 1024))
  {
    ReachableInv(m);
    forall i, j | 0 <= i < j < |m.abandoned| ensures m.abandoned[i] != m.abandoned[j] {
      assert Owned(m.pool, m.abandoned[i], Abandoned(i)) && Owned(m.pool, m.abandoned[j], Abandoned(j));
    }
    forall pid: nat | Live(m, pid) ensures NoDup([m.procs[pid].pdt] + Walk(m.pool.mem, m.procs[pid].pdt, 1024)) {
      SpaceOf(m, pid);
      SpaceReleasable(m.pool, m.kernelPt, pid, m.procs[pid].pdt, m.procs[pid].lowest);
    }
  }

  // ----- conservation -----

  /** Frames handed out so far = free + kernel table + live processes + one per kill. */
  lemma FramesAreConserved(m: Machine)
    requires Reachable(m)
    ensures m.pool.edge - 0x400 == |m.pool.free| + 1 + LiveFrames(m.procs) + m.kills
    ensures m.pool.edge <= 0x3_FFFF
    ensures |m.abandoned| == m.kills
  {
    ReachableInv(m);
  }

  /** After a step that kills, another process runs, and none of the steps stops that. */
  lemma StepRuns(m: Machine, e: Event)
    requires Inv(m) && Enabled(m, e) && Step(m, e).Some?
    requires m.kills > 0 ==> Running(m)
    ensures Step(m, e).value.kills > 0 ==> Running(Step(m, e).value)
  {
    match e
    case Switch => SwitchKeeps(m);
    case Exit => KillKeeps(m); SwitchKeeps(Kill(m));
    case UserFault(va) =>
      if !IsStackFault(va) {
        KillKeeps(m);
        SwitchKeeps(Kill(m));
      }
    case Enqueue(_) =>
    case UserStore(_, _) =>
  }

  lemma {:induction false} RunRuns(m: Machine, run: seq<Event>, m': Machine)
    requires Inv(m) && Runs(m, run, m') && (m.kills > 0 ==> Running(m))
    ensures m'.kills > 0 ==> Running(m')
    decreases |run|
  {
    if run != [] {
      StepRuns(m, run[0]);
      StepKeeps(m, run[0]);
      hide Inv, Step, Enabled, Running;
      RunRuns(Step(m, run[0]).value, run[1..], m');
    }
  }

  /** A process has no negative number of frames, and one that can run has three. */
  lemma FramesAtLeast(m: Machine, pid: nat)
    requires Inv(m) && pid < |m.procs|
    ensures FramesOf(m.procs[pid]) >= if Live(m, pid) then 3 else 0
  {
    if Live(m, pid) {
      SpaceOf(m, pid);
    }
    hide Inv;
  }

  lemma {:induction false} LiveFramesAtLeast(m: Machine, n: nat)
    requires Inv(m) && n <= |m.procs|
    ensures LiveFrames(m.procs[..n]) >= if Running(m) && m.queue[0] < n then 3 else 0
  {
    hide Inv, FramesOf;
    if n > 0 {
      LiveFramesAtLeast(m, n - 1);
      assert m.procs[..n][..n - 1] == m.procs[..n - 1];
      FramesAtLeast(m, n - 1);
    }
  }

  /** The most kills there can be without a panic. */
  const MOST_KILLS := 0x3_FBFB

  /** Each kill leaks one frame, and after it some process runs, so no run without a panic has more than
      MOST_KILLS kills. */
  lemma KillsAreBounded(m: Machine)
    requires Reachable(m)
    ensures m.kills <= 0x3_FBFE - LiveFrames(m.procs)
    ensures m.kills <= 0x3_FBFB
  {
    ReachableInv(m);
    var mem: Memory, imageEnd: Word, run :| Runs(Boot(mem, imageEnd), run, m);
    BootKeeps(mem, imageEnd);
    RunRuns(Boot(mem, imageEnd), run, m);
    LiveFramesAtLeast(m, |m.procs|);
    assert m.procs[..|m.procs|] == m.procs;
    if m.kills > 0 {
      assert m.queue[0] < |m.procs|;
    }
  }

  /** A machine whose only process has one stack page. */
  ghost predicate Alone(m: Machine) {
    && Inv(m) && Running(m)
    && m.queue == [0] && |m.procs| == 1 && m.procs[0].lowest == FIRST_STACK_PAGE
  }

  lemma AloneAvailable(m: Machine)
    requires Alone(m)
    ensures Available(m.pool) == MOST_KILLS - m.kills
  {
    assert m.procs == m.procs[..0] + [m.procs[0]];
    assert LiveFrames(m.procs) == 3;
  }

  /** Its exit frees two frames and abandons one. */
  lemma AloneKilled(m: Machine)
    requires Alone(m) && m.kills < MOST_KILLS
    ensures var k := Kill(m);
            Inv(k) && k.queue == [0] && |k.procs| == 1 && k.procs[0].pdt == 0 && k.kills == m.kills + 1
    ensures Available(Kill(m).pool) >= 3
  {
    AloneAvailable(m);
    KillKeeps(m);
    KillAvailable(m);
    hide Inv, Walk, ReleaseAll, Available;
  }

  lemma AloneSwitches(k: Machine) returns (m: Machine)
    requires Inv(k) && k.queue == [0] && |k.procs| == 1 && k.procs[0].pdt == 0 && Available(k.pool) >= 3
    ensures SwitchProcess(k) == Some(m) && Alone(m) && m.kills == k.kills
  {
    SwitchKeeps(k);
    hide Inv, Create, Available;
    m := SwitchProcess(k).value;
  }

  /** It can exit and start again as long as a frame remains for the next directory. */
  lemma AloneExits(m: Machine) returns (m': Machine)
    requires Alone(m) && m.kills < MOST_KILLS
    ensures Enabled(m, Exit) && Step(m, Exit) == Some(m')
    ensures Alone(m') && m'.kills == m.kills + 1
  {
    AloneKilled(m);
    ExitIsKillThenSwitch(m);
    m' := AloneSwitches(Kill(m));
    hide *;
  }

  lemma FirstIsAlone(mem: Memory, imageEnd: Word, executable: Word) returns (m: Machine)
    ensures Runs(Boot(mem, imageEnd), [Enqueue(executable), Switch], m) && Alone(m) && m.kills == 0
  {
    m := FirstProcessRuns(mem, imageEnd, executable);
    BootKeeps(mem, imageEnd);
    RunKeeps(Boot(mem, imageEnd), [Enqueue(executable), Switch], m);
    hide Inv, Runs, Boot;
  }

  /** A start, and n exits. */
  function ExitRun(executable: Word, n: nat): seq<Event> {
    [Enqueue(executable), Switch] + Repeat(Exit, n)
  }

  lemma ExitRunSnoc(executable: Word, n: nat)
    ensures ExitRun(executable, 0) == [Enqueue(executable), Switch]
    ensures ExitRun(executable, n + 1) == ExitRun(executable, n) + [Exit]
  {
  }

  /** Every number of kills up to the most is reached: one process that exits again and again. */
  lemma {:induction false} KillsAreReached(mem: Memory, imageEnd: Word, executable: Word, n: nat) returns (m: Machine)
    requires n <= 0x3_FBFB
    ensures Runs(Boot(mem, imageEnd), ExitRun(executable, n), m)
    ensures m.kills == n && Alone(m)
  {
    assert n <= MOST_KILLS;
    hide *;
    if n == 0 {
      ExitRunSnoc(executable, 0);
      m := FirstIsAlone(mem, imageEnd, executable);
    } else {
      ExitRunSnoc(executable, n - 1);
      var m0 := KillsAreReached(mem, imageEnd, executable, n - 1);
      m := AloneExits(m0);
      RunsSnoc(Boot(mem, imageEnd), ExitRun(executable, n - 1), m0, Exit, m);
    }
  }

  // ----- access rights and faults -----

  /** What user mode can touch: pages 7 to 0x7F and the grown part of the stack. */
  predicate UserRange(lowest: Word, va: Word) {
    0x7000 <= va < 0x8_0000 || lowest <= va < 0x80_0000
  }

  /** In every live address space the first 4 MiB are identity-mapped, and user mode
      can read or write exactly UserRange. */
  lemma AccessIsExact(m: Machine, pid: nat, va: Word, write: bool)
    requires Reachable(m) && Live(m, pid)
    ensures va < 0x40_0000 ==>
              && Translate(m.pool.mem, m.procs[pid].pdt, va).Some?
              && Translate(m.pool.mem, m.procs[pid].pdt, va).value.physical == va
    ensures UserAccess(m.pool.mem, m.procs[pid].pdt, va, write) <==> UserRange(m.procs[pid].lowest, va)
  {
    ReachableInv(m);
    SpaceOf(m, pid);
    var p := m.procs[pid];
    if va < STACK_BASE {
      TranslateLow(m.pool, m.kernelPt, pid, p.pdt, p.lowest, va);
    } else if va < STACK_TOP {
      TranslateStack(m.pool, m.kernelPt, pid, p.pdt, p.lowest, va);
    } else {
      TranslateHigh(m.pool, m.kernelPt, pid, p.pdt, p.lowest, va);
    }
  }

  /** A user fault enters the stack branch exactly for [0x400000, lowest), and kills the process
      exactly for addresses below 0x7000, in [0x80000, 0x400000) and from 0x800000 on. */
  lemma FaultBranchesAreExact(m: Machine, va: Word, write: bool)
    requires Reachable(m) && Running(m)
    ensures Faults(m, va, write) && IsStackFault(va) <==> 0x40_0000 <= va < Current(m).lowest
    ensures Faults(m, va, write) && !IsStackFault(va) <==>
            va < 0x7000 || 0x8_0000 <= va < 0x40_0000 || va >= 0x80_0000
    ensures Faults(m, va, write) && !(0x40_0000 <= va < 0x80_0000) ==> Step(m, UserFault(va)) == Step(m, Exit)
  {
    ReachableInv(m);
    SpaceOf(m, m.queue[0]);
    AccessIsExact(m, m.queue[0], va, write);
  }

  /** A mapping that a stack fault of process pid at va may change: its own new pages. */
  predicate NewlyMapped(m: Machine, pid: nat, va: Word, q: nat, a: Word)
    requires pid < |m.procs|
  {
    q == pid && va / 4096 * 4096 <= a < m.procs[pid].lowest
  }

  /** One turn of the loop changes one page of one process. */
  lemma GrowPageTranslation(m: Machine, pid: nat, g: Growth, q: nat, a: Word)
    requires Inv(m) && Live(m, pid) && m.procs[pid].lowest > STACK_BASE && Available(m.pool) > 0
    requires GrowPage(m.pool, pid, m.procs[pid].pdt, m.procs[pid].lowest) == Some(g)
    requires Live(m, q) && !(q == pid && g.lowest <= a < m.procs[pid].lowest)
    ensures Translate(g.pool.mem, m.procs[q].pdt, a) == Translate(m.pool.mem, m.procs[q].pdt, a)
  {
    SpaceOf(m, pid);
    SpaceOf(m, q);
    assert m.pool.mem[m.kernelPt] == KernelPage() && Owned(m.pool, m.kernelPt, KernelTable);
    hide Inv;
    var p, pdt, lowest := m.pool, m.procs[pid].pdt, m.procs[pid].lowest;
    GrowPageEffect(p, m.kernelPt, pid, pdt, lowest);
    if q == pid {
      OwnTranslation(p, g.pool, m.kernelPt, pid, pdt, lowest, g.lowest, a);
    } else {
      OtherTranslation(p, g.pool, m.kernelPt, q, m.procs[q].pdt, m.procs[q].lowest, TableOf(p, pdt), a);
    }
  }

  /** One's own stack growing changes only the translation of the new page. */
  lemma OwnTranslation(p: Pool, q: Pool, kernelPt: FrameNo, pid: nat, pdt: FrameNo, lowest: Word, lower: Word, a: Word)
    requires Space(p, kernelPt, pid, pdt, lowest) && Space(q, kernelPt, pid, pdt, lower)
    requires p.mem[kernelPt] == KernelPage() && q.mem[kernelPt] == KernelPage()
    requires lower <= lowest && TableOf(p, pdt) == TableOf(q, pdt)
    requires forall j: Slot :: LowSlot(lowest) <= j ==> LeafOf(q, pdt, j) == LeafOf(p, pdt, j)
    requires !(lower <= a < lowest)
    ensures Translate(q.mem, pdt, a) == Translate(p.mem, pdt, a)
  {
    if a < STACK_BASE {
      TranslateLow(p, kernelPt, pid, pdt, lowest, a);
      TranslateLow(q, kernelPt, pid, pdt, lower, a);
    } else if a < STACK_TOP {
      TranslateStack(p, kernelPt, pid, pdt, lowest, a);
      TranslateStack(q, kernelPt, pid, pdt, lower, a);
    } else {
      TranslateHigh(p, kernelPt, pid, pdt, lowest, a);
      TranslateHigh(q, kernelPt, pid, pdt, lower, a);
    }
  }

  /** Changing a table that is neither the kernel's nor one's own changes no translation. */
  lemma OtherTranslation(p: Pool, q: Pool, kernelPt: FrameNo, pid: nat, pdt: FrameNo, lowest: Word,
                         changed: FrameNo, a: Word)
    requires Space(p, kernelPt, pid, pdt, lowest)
    requires changed != pdt && changed != TableOf(p, pdt) && changed != kernelPt
    requires forall f: FrameNo :: f != changed ==> q.mem[f] == p.mem[f]
    ensures Translate(q.mem, pdt, a) == Translate(p.mem, pdt, a)
  {
    EntryFields(kernelPt, true, true);
    EntryFields(TableOf(p, pdt), true, true);
    if DirectorySlot(a) >= 2 {
      assert p.mem[pdt][DirectorySlot(a)] == 0;
    }
  }

  lemma {:induction false} GrowTranslation(m: Machine, pid: nat, va: Word, q: nat, a: Word)
    requires Inv(m) && Live(m, pid) && IsStackFault(va)
    requires Live(m, q) && !NewlyMapped(m, pid, va, q, a)
    requires Grow(m.pool, pid, m.procs[pid].pdt, m.procs[pid].lowest, va).Some?
    ensures var g := Grow(m.pool, pid, m.procs[pid].pdt, m.procs[pid].lowest, va).value;
            Translate(g.pool.mem, m.procs[q].pdt, a) == Translate(m.pool.mem, m.procs[q].pdt, a)
    decreases m.procs[pid].lowest
  {
    var proc := m.procs[pid];
    if proc.lowest > va {
      SpaceOf(m, pid);
      PagesNeededStep(proc.lowest, va);
      GrowPageEffect(m.pool, m.kernelPt, pid, proc.pdt, proc.lowest);
      var g := GrowPageKeeps(m, pid);
      hide Inv;
      GrowPageTranslation(m, pid, g, q, a);
      GrowTranslation(Extended(m, pid, g), pid, va, q, a);
    }
  }

  /** pagefault_handler on a stack fault.  It succeeds iff frames remain for all missing pages.
      Then the stack reaches down to the page of va, the faulting access and every one from there
      to the top of the stack is allowed, the stack pages are pairwise distinct frames, and no
      other translation of this or of any other process has changed. */
  lemma StackFaultIsServed(m: Machine, va: Word, write: bool)
    requires Reachable(m) && Faults(m, va, write) && IsStackFault(va)
    ensures var pid, r := m.queue[0], Step(m, UserFault(va));
            && (r.None? <==> Available(m.pool) < (Current(m).lowest - va / 4096 * 4096) / 4096)
            && (r.Some? ==>
                  var m' := r.value;
                  && m' == m.(pool := m'.pool, procs := m.procs[pid := Current(m).(lowest := va / 4096 * 4096)])
                  && StackMapped(m'.pool.mem, Current(m).pdt, va / 4096 * 4096)
                  && (forall q: nat, a: Word :: Live(m, q) && !NewlyMapped(m, pid, va, q, a) ==>
                        Translate(m'.pool.mem, m.procs[q].pdt, a) == Translate(m.pool.mem, m.procs[q].pdt, a)))
  {
    ReachableInv(m);
    FaultBranchesAreExact(m, va, write);
    FaultGrows(m, va);
    hide *;
    if Step(m, UserFault(va)).Some? {
      GrownIsMapped(m, va);
      forall q: nat, a: Word | Live(m, q) && !NewlyMapped(m, m.queue[0], va, q, a)
        ensures Translate(Step(m, UserFault(va)).value.pool.mem, m.procs[q].pdt, a) ==
                Translate(m.pool.mem, m.procs[q].pdt, a)
      {
        GrowTranslation(m, m.queue[0], va, q, a);
      }
    }
  }

  /** A stack fault below the stack is the growth loop. */
  lemma FaultGrows(m: Machine, va: Word)
    requires Inv(m) && Running(m) && 0x40_0000 <= va < Current(m).lowest
    ensures var pid, r := m.queue[0], Step(m, UserFault(va));
            var g := Grow(m.pool, pid, m.procs[pid].pdt, m.procs[pid].lowest, va);
            && IsStackFault(va) && Live(m, pid)
            && (r.None? <==> Available(m.pool) < (Current(m).lowest - va / 4096 * 4096) / 4096)
            && (r.Some? <==> g.Some?)
            && (r.Some? ==>
                  && r.value == m.(pool := r.value.pool,
                                   procs := m.procs[pid := Current(m).(lowest := va / 4096 * 4096)])
                  && r.value.pool == g.value.pool && g.value.lowest == va / 4096 * 4096 && Inv(r.value))
  {
    SpaceOf(m, m.queue[0]);
    GrowKeeps(m, m.queue[0], va);
    hide Inv, Grow, Available, Space;
  }

  lemma GrownIsMapped(m: Machine, va: Word)
    requires Inv(m) && Running(m) && 0x40_0000 <= va < Current(m).lowest && Step(m, UserFault(va)).Some?
    ensures StackMapped(Step(m, UserFault(va)).value.pool.mem, Current(m).pdt, va / 4096 * 4096)
  {
    FaultGrows(m, va);
    var m' := Step(m, UserFault(va)).value;
    SpaceOf(m', m.queue[0]);
    hide Inv, Step, Space, StackMapped;
    SpaceIsMapped(m'.pool, m.kernelPt, m.queue[0], Current(m).pdt, va / 4096 * 4096);
  }

  /** From low up to the top of the stack every page is user-writable, on pairwise distinct frames. */
  ghost predicate StackMapped(mem: Memory, pdt: FrameNo, low: Word) {
    && (forall a: Word :: low <= a < 0x80_0000 ==> UserAccess(mem, pdt, a, true))
    && (forall a: Word, b: Word :: low <= a < 0x80_0000 && low <= b < 0x80_0000
          && Translate(mem, pdt, a).Some? && Translate(mem, pdt, b).Some?
          && FrameOf(Translate(mem, pdt, a).value.physical) == FrameOf(Translate(mem, pdt, b).value.physical)
          ==> a / 4096 == b / 4096)
  }

  lemma SpaceIsMapped(p: Pool, kernelPt: FrameNo, pid: nat, pdt: FrameNo, lowest: Word)
    requires Space(p, kernelPt, pid, pdt, lowest)
    ensures StackMapped(p.mem, pdt, lowest)
  {
    forall a: Word | lowest <= a < STACK_TOP
      ensures UserAccess(p.mem, pdt, a, true)
      ensures Translate(p.mem, pdt, a).Some?
      ensures Owned(p, FrameOf(Translate(p.mem, pdt, a).value.physical), Leaf(pid, TableSlot(a)))
      ensures a / 4096 == 1024 + TableSlot(a)
    {
      StackAddress(p, kernelPt, pid, pdt, lowest, a);
    }
  }

  lemma StackAddress(p: Pool, kernelPt: FrameNo, pid: nat, pdt: FrameNo, lowest: Word, a: Word)
    requires Space(p, kernelPt, pid, pdt, lowest) && lowest <= a < STACK_TOP
    ensures UserAccess(p.mem, pdt, a, true)
    ensures Translate(p.mem, pdt, a).Some?
    ensures Owned(p, FrameOf(Translate(p.mem, pdt, a).value.physical), Leaf(pid, TableSlot(a)))
  {
    TranslateStack(p, kernelPt, pid, pdt, lowest, a);
    StackPageOwned(p, kernelPt, pid, pdt, lowest, TableSlot(a));
  }

  /** A served stack fault cannot repeat: the same access is allowed afterwards. */
  lemma StackFaultDoesNotRepeat(m: Machine, va: Word, write: bool)
    requires Reachable(m) && Faults(m, va, write) && IsStackFault(va)
    requires Step(m, UserFault(va)).Some?
    ensures !Faults(Step(m, UserFault(va)).value, va, write)
    ensures Current(Step(m, UserFault(va)).value).lowest < Current(m).lowest
  {
    StackFaultIsServed(m, va, write);
    FaultBranchesAreExact(m, va, write);
    var m' := Step(m, UserFault(va)).value;
    assert Current(m').pdt == Current(m).pdt && UserAccess(m'.pool.mem, Current(m).pdt, va, true);
  }

  // ----- kills -----

  /** exit and the killing faults give back the stack pages and then the stack table, each once,
      in front of the old free list, and abandon the directory. */
  lemma KillReturnsFrames(m: Machine)
    requires Reachable(m) && Running(m)
    ensures var table := TableOf(m.pool, Current(m).pdt);
            && Kill(m).pool.free == Reverse(Leaves(m.pool.mem, table, 1024) + [table]) + m.pool.free
            && |Leaves(m.pool.mem, table, 1024)| == (0x80_0000 - Current(m).lowest) / 4096
            && Kill(m).abandoned == m.abandoned + [Current(m).pdt]
            && Inv(Kill(m))
  {
    ReachableInv(m);
    KillKeeps(m);
    SpaceOf(m, m.queue[0]);
    SpaceWalk(m.pool, m.kernelPt, m.queue[0], Current(m).pdt, Current(m).lowest, 1024);
    SpaceReleasable(m.pool, m.kernelPt, m.queue[0], Current(m).pdt, Current(m).lowest);
  }

  /** A kill panics only in the switch that follows: iff the next process has no address space and
      fewer than three frames remain, the freed ones included. */
  lemma KillPanicsIff(m: Machine)
    requires Reachable(m) && Running(m)
    ensures Step(m, Exit).None? <==>
            NextIsNew(Kill(m)) && Available(m.pool) + 1 + (0x80_0000 - Current(m).lowest) / 4096 < 3
  {
    ReachableInv(m);
    KilledSwitches(m);
    ExitIsKillThenSwitch(m);
    KillAvailable(m);
    hide *;
  }

  lemma ExitIsKillThenSwitch(m: Machine)
    requires Running(m)
    ensures Kill(m).queue == m.queue && m.queue != [] && Enabled(m, Exit)
    ensures Step(m, Exit) == SwitchProcess(Kill(m))
  {
    hide SwitchProcess, Walk, ReleaseAll;
  }

  lemma KilledSwitches(m: Machine)
    requires Inv(m) && Running(m)
    ensures Kill(m).queue == m.queue && m.queue != []
    ensures SwitchProcess(Kill(m)).None? <==> NextIsNew(Kill(m)) && Available(Kill(m).pool) < 3
  {
    KillKeeps(m);
    hide Inv, Kill, SwitchProcess, Available;
    SwitchKeeps(Kill(m));
  }

  lemma KillAvailable(m: Machine)
    requires Inv(m) && Running(m)
    ensures Available(Kill(m).pool) == Available(m.pool) + 1 + (STACK_TOP - Current(m).lowest) / 4096
  {
    KillKeeps(m);
    SpaceOf(m, m.queue[0]);
    hide Inv;
    SpaceReleasable(m.pool, m.kernelPt, m.queue[0], Current(m).pdt, Current(m).lowest);
  }

  /** A killed process that is switched to again starts afresh: one stack page, its own entry point. */
  lemma RestartIsFresh(m: Machine)
    requires Reachable(m) && NextIsNew(m)
    requires Step(m, Switch).Some?
    ensures var m' := Step(m, Switch).value;
            && Running(m') && m'.queue == Rotate(m.queue)
            && Current(m').lowest == 0x7F_F000
            && EntersAt(Current(m').ctx, m.procs[m'.queue[0]].executable)
            && forall va: Word :: 0x40_0000 <= va < 0x80_0000 ==>
                 (UserAccess(m'.pool.mem, Current(m').pdt, va, true) <==> va >= 0x7F_F000)
  {
    ReachableInv(m);
    SwitchKeeps(m);
    var m' := Step(m, Switch).value;
    SpaceOf(m', m'.queue[0]);
    forall va: Word | IsStackFault(va)
      ensures UserAccess(m'.pool.mem, Current(m').pdt, va, true) <==> va >= FIRST_STACK_PAGE
    {
      TranslateStack(m'.pool, m'.kernelPt, m'.queue[0], Current(m').pdt, Current(m').lowest, va);
    }
  }

  /** Stores are isolated exactly from STACK_BASE on.  There a store that user mode can make reaches a
      frame of the running process; below, it reaches the very same physical address, which is shared by
      all, and the kernel image from its start up to 0x80000 is open to it. */
  lemma StoresStayInsideIff(m: Machine, va: Word)
    requires Reachable(m) && Running(m) && UserAccess(m.pool.mem, Current(m).pdt, va, true)
    ensures var physical := Translate(m.pool.mem, Current(m).pdt, va).value.physical;
            && (InUse(m, m.queue[0], FrameOf(physical)) <==> va >= 0x40_0000)
            && (va < 0x40_0000 ==> physical == va && 0x7000 <= va < 0x8_0000)
  {
    ReachableInv(m);
    var pid := m.queue[0];
    SpaceOf(m, pid);
    AccessIsExact(m, pid, va, true);
    var f := FrameOf(Translate(m.pool.mem, Current(m).pdt, va).value.physical);
    InUseOwned(m, pid, f);
    if va >= STACK_BASE {
      StackAddress(m.pool, m.kernelPt, pid, Current(m).pdt, Current(m).lowest, va);
    }
  }

  /** So user mode can overwrite the first byte of the kernel image, at 0x7C00, in every live process. */
  lemma KernelImageIsWritable(m: Machine, pid: nat)
    requires Reachable(m) && Live(m, pid)
    ensures UserAccess(m.pool.mem, m.procs[pid].pdt, 0x7C00, true)
    ensures Translate(m.pool.mem, m.procs[pid].pdt, 0x7C00).value.physical == 0x7C00
  {
    AccessIsExact(m, pid, 0x7C00, true);
  }

  lemma StoreKeepsTranslation(m: Machine, va: Word, value: Word, q: nat, a: Word)
    requires Inv(m) && Enabled(m, UserStore(va, value)) && Live(m, q)
    ensures Translate(Store(m, va, value).pool.mem, m.procs[q].pdt, a) == Translate(m.pool.mem, m.procs[q].pdt, a)
  {
    StoreKeeps(m, va, value);
    SpaceOf(m, q);
    assert Owned(m.pool, m.kernelPt, KernelTable);
    hide Inv, Translate, Store, Enabled;
    OtherTranslation(m.pool, Store(m, va, value).pool, m.kernelPt, q, m.procs[q].pdt, m.procs[q].lowest,
                     StoreFrame(m, va), a);
  }

  /** A store changes one word of one frame: from STACK_BASE on a frame that only the running process uses,
      below it a frame outside the page space.  The free list and all translations stay as they are. */
  lemma StoresAreIsolated(m: Machine, va: Word, value: Word, q: nat, a: Word)
    requires Reachable(m) && Enabled(m, UserStore(va, value)) && Live(m, q)
    ensures var m', f := Store(m, va, value), StoreFrame(m, va);
            && m'.pool.free == m.pool.free && PoolInv(m'.pool)
            && m'.pool.mem == Put(m.pool.mem, f, va % 4096 / 4, value)
            && Translate(m'.pool.mem, m.procs[q].pdt, a) == Translate(m.pool.mem, m.procs[q].pdt, a)
            && (InUse(m, q, f) <==> va >= 0x40_0000 && q == m.queue[0])
            && (va < 0x40_0000 ==> f < 0x80)
  {
    ReachableInv(m);
    StoreKeeps(m, va, value);
    InUseOwned(m, q, StoreFrame(m, va));
    StoreKeepsTranslation(m, va, value, q, a);
    assert PoolInv(Store(m, va, value).pool);
    hide Inv, PoolInv, Translate, InUse, UserAccess, LeafOf;
  }

  // ----- turns -----

  /** The events after which another process runs. */
  predicate IsTurn(e: Event) {
    e.Switch? || e.Exit? || (e.UserFault? && !(0x40_0000 <= e.va < 0x80_0000))
  }

  function Turns(run: seq<Event>): nat
    decreases |run|
  {
    if run == [] then 0 else (if IsTurn(run[0]) then 1 else 0) + Turns(run[1..])
  }

  /** In every run, whoever stands d steps behind the current process is current after exactly d turns,
      whatever is enqueued, killed, stored or faulted in between. */
  lemma {:induction false} TurnsAreRoundRobin(m: Machine, run: seq<Event>, m': Machine)
    requires Runs(m, run, m') && Turns(run) < |m.queue|
    ensures m'.queue != [] && m'.queue[0] == m.queue[Turns(run)]
    decreases |run|
  {
    if run != [] {
      var m1 := Step(m, run[0]).value;
      assert m1.queue == if IsTurn(run[0]) then Rotate(m.queue)
                         else if run[0].Enqueue? then m.queue + [|m.procs|] else m.queue;
      TurnsAreRoundRobin(m1, run[1..], m');
    }
  }

  lemma FirstEnqueued(mem: Memory, imageEnd: Word, executable: Word)
    ensures var m0 := Boot(mem, imageEnd);
            var m1 := EnqueueProcess(m0, executable);
            && Inv(m1) && m1.queue == [0] && m1.procs == [Process(executable, 0, 0, FreshContext(executable))]
            && m1.kills == 0 && Available(m1.pool) >= 3 && Step(m0, Enqueue(executable)) == Some(m1)
  {
    var m0 := Boot(mem, imageEnd);
    BootKeeps(mem, imageEnd);
    EnqueueKeeps(m0, executable);
    var first := Process(executable, 0, 0, FreshContext(executable));
    assert [] + [first] == [first];
    hide Inv;
  }

  lemma FirstSwitch(m: Machine, executable: Word)
    requires m.queue == [0] && m.procs == [Process(executable, 0, 0, FreshContext(executable))]
    requires SwitchProcess(m).Some?
    ensures var r := SwitchProcess(m).value;
            && r.queue == [0] && |r.procs| == 1 && r.procs[0].lowest == 0x7F_F000 && r.kills == m.kills
            && EntersAt(r.procs[0].ctx, executable)
  {
    hide Create, Entry;
  }

  lemma TwoSteps(m0: Machine, a: Event, m1: Machine, b: Event, m2: Machine)
    requires Enabled(m0, a) && Step(m0, a) == Some(m1) && Enabled(m1, b) && Step(m1, b) == Some(m2)
    ensures Runs(m0, [a, b], m2)
  {
    assert [a, b][1..] == [b] && [b][1..] == [];
    assert Runs(m2, [], m2);
    assert Runs(m1, [b], m2);
    hide Step, Enabled;
  }

  /** The machine does run: after booting, enqueuing and switching, a process is current. */
  lemma FirstProcessRuns(mem: Memory, imageEnd: Word, executable: Word) returns (m: Machine)
    ensures Runs(Boot(mem, imageEnd), [Enqueue(executable), Switch], m) && Running(m)
    ensures EntersAt(Current(m).ctx, executable)
    ensures m.queue == [0] && |m.procs| == 1 && m.procs[0].lowest == 0x7F_F000 && m.kills == 0
  {
    var m0 := Boot(mem, imageEnd);
    var m1 := EnqueueProcess(m0, executable);
    FirstEnqueued(mem, imageEnd, executable);
    hide Inv, Create, Available, Boot, EnqueueProcess, SwitchProcess, EntersAt;
    SwitchKeeps(m1);
    FirstSwitch(m1, executable);
    m := SwitchProcess(m1).value;
    TwoSteps(m0, Enqueue(executable), m1, Switch, m);
  }
}

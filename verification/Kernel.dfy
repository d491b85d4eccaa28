/** The kernel's own code for processes and faults (process.c, syscalls.c, and pagefault_handler of
    paging.c), each routine proved to take the corresponding step of module Processes. */
module Kernel {
  import opened Words
  import opened Frames
  import opened Paging
  import opened ContextFrame
  import opened RotatingQueue
  import opened Processes
  import opened ProcessInvariant
  import opened ProcessTheorems
  import Scheduler

  class Kernel {
    const fa: FrameAllocator
    const scheduler: Scheduler.Scheduler
    const imageEnd: Word
    var kernelPt: FrameNo
    var kernelPde: Word
    var procs: seq<Process>
    var param: nat
    ghost var queue: seq<nat>
    ghost var abandoned: seq<FrameNo>

    ghost function State(): Machine
      reads this, fa
    {
      Machine(fa.Value(), kernelPt, imageEnd, procs, queue, param, abandoned)
    }

    /** The scheduler's ring holds the processes of the queue, in its order. */
    ghost predicate InRing()
      reads this`queue, scheduler, scheduler.ring
    {
      && scheduler.Valid() && |scheduler.ring| == |queue|
      && forall i :: 0 <= i < |queue| ==> scheduler.ring[i].pid == queue[i]
    }

    ghost predicate Wired()
      reads this, fa, fa.ram, scheduler, scheduler.ring
    {
      fa.Valid() && kernelPde == Entry(kernelPt, true, true) && scheduler.front == |procs| && InRing()
    }

    /** The kernel is in a state that some run from power-on leads to. */
    ghost predicate Valid()
      reads this, fa, fa.ram, scheduler, scheduler.ring
    {
      Wired() && Reachable(State())
    }

    /** setup_kernel_paging on a frame allocator nothing was taken from. */
    constructor (fa: FrameAllocator, capacity: nat, imageEnd: Word)
      requires fa.Valid() && fa.Value() == Pool(fa.mem, FIRST_FRAME, 0, [], map[])
      modifies fa, fa.ram
      ensures this.fa == fa && scheduler.capacity == capacity
      ensures Valid() && State() == Boot(old(fa.mem), imageEnd)
    {
      this.fa := fa;
      this.imageEnd := imageEnd;
      scheduler := new Scheduler.Scheduler(capacity);
      procs, queue, param := [], [], 0;
      abandoned := [];
      new;
      var pt := SetupKernelPaging(fa);
      kernelPt := pt.value;
      kernelPde := Entry(pt.value, true, true);
      BootIsReachable(old(fa.mem), imageEnd);
    }

    /** enqueue_process: the new process joins the ring behind the current one.
        false stands for the kernel panic when the scheduler's arena is full. */
    method Enqueue(executable: Word) returns (ok: bool)
      requires Valid()
      modifies this, scheduler, scheduler.ring
      ensures ok <==> |old(procs)| < scheduler.capacity
      ensures ok ==> Valid() && State() == EnqueueProcess(old(State()), executable)
      ensures ok ==> |procs| == |old(procs)| + 1 && procs[|old(procs)|].executable == executable
    {
      ReachableStep(State(), Event.Enqueue(executable));
      hide Reachable;
      ok := Join();
      if !ok {
        return;
      }
      procs := procs + [Process(executable, 0, 0, FreshContext(executable))];
    }

    /** schedule_process: a node for a new process, which gets the next number. */
    method Join() returns (ok: bool)
      requires InRing()
      modifies this`queue, scheduler, scheduler.ring
      ensures ok <==> old(scheduler.front) < scheduler.capacity
      ensures ok ==> InRing() && queue == old(queue) + [old(scheduler.front)]
      ensures ok ==> scheduler.front == old(scheduler.front) + 1
    {
      var node := scheduler.ScheduleProcess();
      if node.None? {
        return false;
      }
      queue := queue + [node.value.pid];
      ok := true;
    }

    /** scheduler_next_process: the next process of the ring becomes current. */
    method Advance() returns (pid: nat)
      requires InRing() && queue != []
      modifies this`queue, scheduler
      ensures InRing() && queue == Rotate(old(queue)) && pid == queue[0] && pid in old(queue)
      ensures scheduler.front == old(scheduler.front)
    {
      RotateKeeps(scheduler.ring);
      var node := scheduler.NextProcess();
      queue := Rotate(queue);
      pid := node.pid;
    }

    /** switch_process; false stands for the kernel panic. */
    method Switch() returns (ok: bool)
      requires Wired() && queue != [] && QueueInRange(State())
      modifies this, fa, fa.ram, scheduler
      ensures ok <==> SwitchProcess(old(State())).Some?
      ensures ok ==> Wired() && SwitchProcess(old(State())) == Some(State())
    {
      RotateKeeps(queue);
      var pid := Advance();
      if procs[pid].pdt == 0 {
        var pdt := CreateVas(fa, pid, kernelPde);
        if pdt.None? {
          return false;
        }
        procs := procs[pid := procs[pid].(pdt := pdt.value, lowest := 0x7F_F000,
                                          ctx := FreshContext(procs[pid].executable))];
      }
      ok := true;
    }

    /** Freeing the current address space, in exit and in the killing branches of the fault handler. */
    method KillCurrent()
      requires Wired() && Running(State()) && PoolInv(fa.Value())
      requires var frames := Walk(fa.mem, Current(State()).pdt, 1024);
               Releasable(fa.Value(), frames) && Current(State()).pdt !in frames
      modifies this, fa, fa.ram
      ensures Wired() && State() == Kill(old(State()))
    {
      hide Released, PoolInv, Releasable;
      var pid := scheduler.current.pid;
      assert pid == queue[0];
      hide InRing;
      FreeVas(fa, procs[pid].pdt);
      fa.owner := fa.owner[procs[pid].pdt := Abandoned(param)];
      abandoned := abandoned + [procs[pid].pdt];
      procs := procs[pid := procs[pid].(pdt := 0)];
      param := param + 1;
    }

    /** One turn of the loop of pagefault_handler. */
    method GrowOnePage(pid: nat, pdt: FrameNo, lowest: Word) returns (ok: bool)
      requires fa.Valid() && lowest >= 0x1000
      modifies fa, fa.ram
      ensures ok <==> GrowPage(old(fa.Value()), pid, pdt, lowest).Some?
      ensures ok ==>
                fa.Valid() && GrowPage(old(fa.Value()), pid, pdt, lowest) == Some(Growth(fa.Value(), lowest - 0x1000))
    {
      var i := lowest - 0x1000;
      var mounted := IsMounted(fa, pdt, i);
      if !mounted {
        var page := fa.MallocPage(Leaf(pid, TableSlot(i)));
        if page.None? {
          return false;
        }
        ok := MountPage(fa, Table(pid), pdt, i / 4096 * 4096, page.value, true, true);
        return;
      }
      ok := true;
    }

    /** The turn, and lowest_stack_page moved down with it. */
    method LowerStack(ghost m: Machine, pid: nat, lowest: Word) returns (ok: bool)
      requires Wired() && pid < |m.procs| && lowest >= 0x1000
      requires State() == Extended(m, pid, Growth(fa.Value(), lowest))
      modifies this`procs, fa, fa.ram
      ensures ok <==> GrowPage(old(fa.Value()), pid, m.procs[pid].pdt, lowest).Some?
      ensures ok ==> Wired() && State() == Extended(m, pid, Growth(fa.Value(), lowest - 0x1000))
      ensures ok ==>
                GrowPage(old(fa.Value()), pid, m.procs[pid].pdt, lowest) == Some(Growth(fa.Value(), lowest - 0x1000))
    {
      hide InRing, GrowPage, Entry;
      ok := GrowOnePage(pid, procs[pid].pdt, lowest);
      if ok {
        procs := procs[pid := procs[pid].(lowest := lowest - 0x1000)];
      }
    }

    /** The loop of pagefault_handler that mounts stack pages down to the page of cr2. */
    method GrowStack(cr2: Word) returns (ok: bool)
      requires Wired() && Running(State()) && IsStackFault(cr2)
      modifies this, fa, fa.ram
      ensures ok <==> Fault(old(State()), cr2).Some?
      ensures ok ==> Wired() && Fault(old(State()), cr2) == Some(State())
    {
      ghost var m := State();
      var pid := scheduler.current.pid;
      assert pid == queue[0];
      var i: Word := procs[pid].lowest;
      StackFaultGrows(m, cr2);
      assert 0x40_0000 <= cr2 && State() == Extended(m, pid, Growth(fa.Value(), i)) by {
        assert m.procs == m.procs[pid := m.procs[pid].(lowest := i)];
      }
      hide *;
      ghost var pdt, grown := m.procs[pid].pdt, Grow(m.pool, pid, m.procs[pid].pdt, m.procs[pid].lowest, cr2);
      while i > cr2
        invariant Wired() && State() == Extended(m, pid, Growth(fa.Value(), i))
        invariant grown == Grow(fa.Value(), pid, pdt, i, cr2)
        decreases i
      {
        GrowTurn(fa.Value(), pid, pdt, i, cr2);
        ok := LowerStack(m, pid, i);
        if !ok {
          return;
        }
        i := i - 0x1000;
      }
      GrowDone(fa.Value(), pid, pdt, i, cr2);
      ok := true;
    }

    /** The scheduler's switch, from a reachable machine. */
    method SwitchNext() returns (ok: bool)
      requires Valid() && queue != []
      modifies this, fa, fa.ram, scheduler
      ensures ok <==> SwitchProcess(old(State())).Some?
      ensures ok ==> Valid() && SwitchProcess(old(State())) == Some(State())
    {
      SwitchReady(State());
      hide Reachable;
      ok := Switch();
    }

    /** The exit system call. */
    method Exit() returns (ok: bool)
      requires Valid() && Running(State())
      modifies this, fa, fa.ram, scheduler
      ensures ok <==> SwitchProcess(Kill(old(State()))).Some?
      ensures ok ==> Valid() && SwitchProcess(Kill(old(State()))) == Some(State())
      ensures ok ==> param == old(param) + 1 && abandoned == old(abandoned + [procs[queue[0]].pdt])
    {
      if SwitchProcess(Kill(State())).Some? {
        KillLogs(State());
      }
      KillReady(State());
      hide Reachable;
      KillCurrent();
      ok := Switch();
    }

    /** pagefault_handler for a fault at cr2; false stands for the kernel panic, which is also the
        answer to a fault in kernel mode. */
    method PagefaultHandler(cr2: Word, errorCode: Word) returns (ok: bool)
      requires Valid() && Running(State())
      modifies this, fa, fa.ram, scheduler
      ensures ok <==> errorCode / 4 % 2 == 1 && Fault(old(State()), cr2).Some?
      ensures ok ==> Valid() && Fault(old(State()), cr2) == Some(State())
      ensures ok && !(0x40_0000 <= cr2 < 0x80_0000) ==>
                param == old(param) + 1 && abandoned == old(abandoned + [procs[queue[0]].pdt])
    {
      if SwitchProcess(Kill(State())).Some? {
        KillLogs(State());
      }
      KillReady(State());
      FaultReachable(State(), cr2);
      hide Reachable;
      if !User(errorCode) {
        return false;
      }
      if cr2 < 0x7000 {
        // null pointer: kill
      } else if 0x8_0000 <= cr2 < 0x40_0000 {
        // stack overflow: kill
      } else if 0x40_0000 <= cr2 < 0x80_0000 {
        ok := GrowStack(cr2);
        return;
      } else {
        // any other address: kill
      }
      KillCurrent();
      ok := Switch();
    }

    /** A store by the running process, carried out by the processor through the page tables. */
    method UserStores(va: Word, value: Word)
      requires Valid() && Enabled(State(), UserStore(va, value))
      modifies this, fa, fa.ram
      ensures Valid() && State() == Store(old(State()), va, value)
    {
      ReachableStep(State(), UserStore(va, value));
      hide Reachable;
      var t := WalkTables(fa, procs[scheduler.current.pid].pdt, va);
      fa.Store(t.value.physical / 4096, t.value.physical % 4096 / 4, value);
    }
  }

  lemma StackFaultGrows(m: Machine, va: Word)
    requires Running(m) && IsStackFault(va)
    ensures var pid := m.queue[0];
            var g := Grow(m.pool, pid, m.procs[pid].pdt, m.procs[pid].lowest, va);
            Fault(m, va) == if g.None? then None else Some(Extended(m, pid, g.value))
  {
    hide Grow;
  }

  lemma GrowTurn(p: Pool, pid: nat, pdt: FrameNo, lowest: Word, va: Word)
    requires STACK_BASE <= va < lowest
    ensures var g := GrowPage(p, pid, pdt, lowest);
            Grow(p, pid, pdt, lowest, va) ==
            if g.None? then None else Grow(g.value.pool, pid, pdt, g.value.lowest, va)
  {
    hide GrowPage;
  }

  lemma GrowDone(p: Pool, pid: nat, pdt: FrameNo, lowest: Word, va: Word)
    requires lowest <= va && va >= STACK_BASE
    ensures Grow(p, pid, pdt, lowest, va) == Some(Growth(p, lowest))
  {
  }

  /** A running machine may be told to free its current address space, and then to switch. */
  lemma KillReady(m: Machine)
    requires Reachable(m) && Running(m)
    ensures PoolInv(m.pool) && QueueInRange(Kill(m))
    ensures var frames := Walk(m.pool.mem, Current(m).pdt, 1024);
            Releasable(m.pool, frames) && Current(m).pdt !in frames
    ensures SwitchProcess(Kill(m)).Some? ==> Reachable(SwitchProcess(Kill(m)).value)
  {
    ReachableInv(m);
    KillKeeps(m);
    SpaceOf(m, m.queue[0]);
    SpaceReleasable(m.pool, m.kernelPt, m.queue[0], Current(m).pdt, Current(m).lowest);
    InvQueue(Kill(m));
    if SwitchProcess(Kill(m)).Some? {
      ReachableStep(m, Event.Exit);
    }
  }

  lemma KillLogs(m: Machine)
    requires Running(m) && SwitchProcess(Kill(m)).Some?
    ensures var m' := SwitchProcess(Kill(m)).value;
            m'.kills == m.kills + 1 && m'.abandoned == m.abandoned + [m.procs[m.queue[0]].pdt]
  {
    hide Create, ReleaseAll, Walk, Rotate;
  }

  lemma SwitchReady(m: Machine)
    requires Reachable(m) && m.queue != []
    ensures QueueInRange(m)
    ensures SwitchProcess(m).Some? ==> Reachable(SwitchProcess(m).value)
  {
    ReachableInv(m);
    InvQueue(m);
    if SwitchProcess(m).Some? {
      ReachableStep(m, Event.Switch);
    }
  }

  lemma FaultReachable(m: Machine, va: Word)
    requires Reachable(m) && Running(m)
    ensures Fault(m, va).Some? ==> Reachable(Fault(m, va).value)
  {
    if Fault(m, va).Some? {
      ReachableStep(m, UserFault(va));
    }
  }

  ghost predicate QueueInRange(m: Machine) {
    forall pid :: pid in m.queue ==> pid < |m.procs|
  }

  lemma InvQueue(m: Machine)
    requires Inv(m)
    ensures QueueInRange(m)
  {
  }

  /** The theorems about reachable machines hold of the kernel's own variables; the count of frames, for one. */
  lemma CodeConservesFrames(k: Kernel)
    requires k.Valid()
    ensures k.fa.frameEdge - 0x400 == |k.fa.free| + 1 + LiveFrames(k.procs) + k.param
    ensures Follow(k.fa.mem, k.fa.frameFreeList, |k.fa.free|) == 0
  {
    FramesAreConserved(k.State());
    ReachableInv(k.State());
    FreeListIsAcyclic(k.fa.Value(), |k.fa.free|);
  }
}

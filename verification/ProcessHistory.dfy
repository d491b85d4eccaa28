/** What the events of a run have done: which program each process runs, which processes were killed, and what
    a kill and a switch leave. */
module ProcessHistory {
  import opened Words
  import opened Frames
  import opened Paging
  import opened ContextFrame
  import opened RotatingQueue
  import opened Processes
  import opened ProcessInvariant
  import opened ProcessTheorems

  // ----- programs -----

  /** The arguments of the enqueue_process calls of a run, in order. */
  function Enqueued(run: seq<Event>): seq<Word>
    decreases |run|
  {
    if run == [] then []
    else (if run[0].Enqueue? then [run[0].executable] else []) + Enqueued(run[1..])
  }

  /** Every process has the context that enters its own program. */
  ghost predicate AllEnter(m: Machine) {
    forall pid: nat :: pid < |m.procs| ==> EntersAt(m.procs[pid].ctx, m.procs[pid].executable)
  }

  /** procs' are the processes after some more were enqueued. */
  ghost predicate Joined(procs: seq<Process>, added: seq<Word>, procs': seq<Process>) {
    && |procs'| == |procs| + |added|
    && forall i :: 0 <= i < |procs'| ==>
         procs'[i].executable == if i < |procs| then procs[i].executable else added[i - |procs|]
  }

  lemma StepJoins(m: Machine, e: Event)
    requires Enabled(m, e) && Step(m, e).Some? && AllEnter(m)
    ensures Joined(m.procs, if e.Enqueue? then [e.executable] else [], Step(m, e).value.procs)
    ensures AllEnter(Step(m, e).value)
  {
    hide Create, Grow, ReleaseAll, Walk, Translate;
  }

  lemma {:induction false} RunJoins(m: Machine, run: seq<Event>, m': Machine)
    requires Runs(m, run, m') && AllEnter(m)
    ensures Joined(m.procs, Enqueued(run), m'.procs) && AllEnter(m')
    decreases |run|
  {
    if run != [] {
      var m1 := Step(m, run[0]).value;
      StepJoins(m, run[0]);
      RunJoins(m1, run[1..], m');
      hide AllEnter, Step, Enabled;
    }
  }

  /** In every run, process number pid runs the program given by the pid-th enqueue_process, and whenever it
      starts or restarts it enters that program. */
  lemma ProgramsAreAsEnqueued(mem: Memory, imageEnd: Word, run: seq<Event>, m: Machine)
    requires Runs(Boot(mem, imageEnd), run, m)
    ensures |m.procs| == |Enqueued(run)|
    ensures forall pid: nat :: pid < |m.procs| ==>
              m.procs[pid].executable == Enqueued(run)[pid] && EntersAt(m.procs[pid].ctx, Enqueued(run)[pid])
    ensures Running(m) ==> EntersAt(Current(m).ctx, Enqueued(run)[m.queue[0]])
  {
    RunJoins(Boot(mem, imageEnd), run, m);
  }

  // ----- kills -----

  /** The events that kill the running process: exit, and a fault outside the stack area. */
  predicate IsKill(e: Event) {
    e.Exit? || (e.UserFault? && !(0x40_0000 <= e.va < 0x80_0000))
  }

  function KillingEvents(run: seq<Event>): nat
    decreases |run|
  {
    if run == [] then 0 else (if IsKill(run[0]) then 1 else 0) + KillingEvents(run[1..])
  }

  lemma StepCounts(m: Machine, e: Event)
    requires Enabled(m, e) && Step(m, e).Some?
    ensures Step(m, e).value.kills == m.kills + if IsKill(e) then 1 else 0
  {
    hide Create, Grow, ReleaseAll, Walk, Translate;
  }

  /** The counter counts exactly the killing events of the run. */
  lemma {:induction false} KillsAreCounted(m: Machine, run: seq<Event>, m': Machine)
    requires Runs(m, run, m')
    ensures m'.kills == m.kills + KillingEvents(run)
    decreases |run|
  {
    if run != [] {
      StepCounts(m, run[0]);
      KillsAreCounted(Step(m, run[0]).value, run[1..], m');
      hide Step, Enabled;
    }
  }

  lemma AllocFree(p: Pool, o: Owner)
    requires PoolInv(p) && CanAlloc(p)
    ensures Alloc(p, o).pool.free == Tail(p.free)
  {
    CanAllocIff(p);
  }

  /** create_VAS takes its three frames from the front of the free list, as long as that lasts. */
  lemma CreateFree(p: Pool, pid: nat, kernelPde: Word)
    requires PoolInv(p) && Available(p) >= 3
    ensures Create(p, pid, kernelPde).Some?
    ensures Create(p, pid, kernelPde).value.pool.free == p.free[Min(3, |p.free|)..]
  {
    CanAllocIff(p);
    var g := CallocWrite(p, Directory(pid), 0, kernelPde);
    var h, l := StackFrames(g.pool, pid);
    AllocFree(p, Directory(pid));
    AllocFree(g.pool, Table(pid));
    CallocKeeps(g.pool, Table(pid));
    AllocFree(h.pool, Leaf(pid, 1023));
    CreateIs(p, pid, kernelPde, g, h, l);
    assert l.pool.free == Tail(Tail(Tail(p.free)));
    hide PoolInv, CanAlloc, Available, Entry;
  }

  /** What a switch makes of the machine. */
  lemma SwitchEffect(m: Machine)
    requires Inv(m) && m.queue != []
    ensures var next := m.queue[if |m.queue| > 1 then 1 else 0];
            && next < |m.procs|
            && (SwitchProcess(m).None? <==> m.procs[next].pdt == 0 && Available(m.pool) < 3)
            && (SwitchProcess(m).Some? ==>
                  var m' := SwitchProcess(m).value;
                  && Inv(m') && Live(m', next)
                  && m' == m.(pool := m'.pool, queue := m.queue[1..] + m.queue[..1],
                              procs := m.procs[next := m'.procs[next]])
                  && if m.procs[next].pdt == 0 then
                       && m'.procs[next].lowest == 0x7F_F000
                       && m'.pool.free == m.pool.free[Min(3, |m.pool.free|)..]
                     else m'.pool == m.pool && m'.procs[next] == m.procs[next])
  {
    SwitchKeeps(m);
    NextIs(m);
    RotateKeeps(m.queue);
    var next := Rotate(m.queue)[0];
    assert next in m.queue && PoolInv(m.pool);
    if m.procs[next].pdt == 0 {
      if Available(m.pool) >= 3 {
        CreateFree(m.pool, next, Entry(m.kernelPt, true, true));
      }
    } else {
      assert m.procs[next := m.procs[next]] == m.procs;
    }
    hide Inv, Create, Available, Entry;
  }

  lemma NextIs(m: Machine)
    requires m.queue != []
    ensures Rotate(m.queue) == m.queue[1..] + m.queue[..1]
    ensures Rotate(m.queue)[0] == m.queue[if |m.queue| > 1 then 1 else 0]
  {
  }

  lemma KillingStep(m: Machine, e: Event)
    requires Enabled(m, e) && IsKill(e)
    ensures Running(m) && Step(m, e) == SwitchProcess(Kill(m))
  {
    hide SwitchProcess, Kill, Grow;
  }

  /** Every exit, and every user fault outside the stack area, frees the running process: its stack pages and
      then its table go to the front of the free list, its directory alone is abandoned and belongs to no
      process any more, and it has no address space, unless it is itself the next to run; then it has a new
      one.  The step panics exactly if the next process needs an address space and fewer than three frames
      remain. */
  lemma KillingEventKills(m: Machine, e: Event)
    requires Reachable(m) && Enabled(m, e) && IsKill(e)
    ensures m.queue != [] && m.queue[0] < |m.procs|
    ensures var victim, next := m.queue[0], m.queue[if |m.queue| > 1 then 1 else 0];
            var pdt, pages := m.procs[victim].pdt, (0x80_0000 - m.procs[victim].lowest) / 4096;
            && next < |m.procs|
            && var anew := next == victim || m.procs[next].pdt == 0;
            && (Step(m, e).None? <==> anew && Available(m.pool) + pages + 1 < 3)
            && (Step(m, e).Some? ==>
                  var m' := Step(m, e).value;
                  && m'.queue == m.queue[1..] + m.queue[..1] && |m'.procs| == |m.procs|
                  && m'.kills == m.kills + 1 && m'.abandoned == m.abandoned + [pdt]
                  && (forall q: nat :: Live(m', q) ==> m'.procs[q].pdt != pdt)
                  && (if victim == next then Live(m', victim) && m'.procs[victim].lowest == 0x7F_F000
                      else m'.procs[victim].pdt == 0)
                  && FreedBy(m, pdt, pages, anew, m'.pool.free))
  {
    KillingStep(m, e);
    KilledIs(m);
    var k := Kill(m);
    hide Kill, ReleaseAll, Walk, Inv, PoolInv, Available, Step, Reachable;
    SwitchEffect(k);
    if SwitchProcess(k).Some? {
      AbandonedIsUnused(SwitchProcess(k).value, m.procs[m.queue[0]].pdt, m.kills);
    }
  }

  lemma KilledIs(m: Machine)
    requires Reachable(m) && Running(m)
    ensures var k, victim, pdt := Kill(m), m.queue[0], m.procs[m.queue[0]].pdt;
            && Inv(k) && k.queue == m.queue && k.procs == m.procs[victim := m.procs[victim].(pdt := 0)]
            && k.kills == m.kills + 1 && k.abandoned == m.abandoned + [pdt] && |m.abandoned| == m.kills
            && FreedBy(m, pdt, (0x80_0000 - m.procs[victim].lowest) / 4096, false, k.pool.free)
            && Available(k.pool) == Available(m.pool) + (0x80_0000 - m.procs[victim].lowest) / 4096 + 1
  {
    ReachableInv(m);
    KillReturnsFrames(m);
    KillAvailable(m);
    SpaceOf(m, m.queue[0]);
    hide Inv, PoolInv, Available, ReleaseAll, Walk, Space, Reachable, Reverse;
  }

  /** free is the free list after the pages and the table of this address space were pushed in front of it, and,
      if the next process is new, three frames were taken from it again. */
  ghost predicate FreedBy(m: Machine, pdt: FrameNo, pages: int, anew: bool, free: seq<FrameNo>) {
    var table := TableOf(m.pool, pdt);
    var leaves := Leaves(m.pool.mem, table, 1024);
    var pushed := Reverse(leaves + [table]) + m.pool.free;
    && |leaves| == pages
    && free == if anew then pushed[Min(3, |pushed|)..] else pushed
  }

  lemma AbandonedIsUnused(m: Machine, pdt: FrameNo, k: nat)
    requires Inv(m) && k < |m.abandoned| && m.abandoned[k] == pdt
    ensures forall q: nat :: Live(m, q) ==> m.procs[q].pdt != pdt
  {
    assert Owned(m.pool, pdt, Abandoned(k));
    forall q: nat | Live(m, q) ensures m.procs[q].pdt != pdt {
      SpaceOf(m, q);
    }
  }
}

/** The processes, their address spaces and the frame pool as one machine, whose steps are
    enqueue, switch, a user page fault, exit, and a store by the running process. */
module Processes {
  import opened Words
  import opened Frames
  import opened Paging
  import opened ContextFrame
  import opened RotatingQueue

  const STACK_BASE: Word := 0x40_0000
  const FIRST_STACK_PAGE: Word := 0x7F_F000

  /** pdt is 0 (NULL) while the process has no address space. */
  datatype Process = Process(executable: Word, pdt: FrameNo, lowest: Word, ctx: IntraContext)

  /** `imageEnd` is where the linker ends the kernel image.  `queue` lists process ids in ring order, the
      current process first (module Scheduler).  `kills` is the kernel's `param`; `abandoned` lists the
      directories left behind. */
  datatype Machine = Machine(
    pool: Pool, kernelPt: FrameNo, imageEnd: Word, procs: seq<Process>, queue: seq<nat>, kills: nat,
    abandoned: seq<FrameNo>)

  // ----- the invariant -----

  ghost predicate Owned(p: Pool, f: FrameNo, o: Owner) {
    f in p.owner && p.owner[f] == o
  }

  /** The first mapped slot of the stack table. */
  function LowSlot(lowest: Word): int { (lowest - STACK_BASE) / 4096 }

  function TableOf(p: Pool, pdt: FrameNo): FrameNo { FrameOf(p.mem[pdt][1]) }

  function LeafOf(p: Pool, pdt: FrameNo, j: Slot): FrameNo { FrameOf(p.mem[TableOf(p, pdt)][j]) }

  /** Slot j of a stack table: empty below the low slot, a user page of this process from there on. */
  ghost predicate StackSlot(p: Pool, pid: nat, pdt: FrameNo, lowest: Word, j: Slot) {
    var e := p.mem[TableOf(p, pdt)][j];
    if j < LowSlot(lowest) then e == 0
    else e == Entry(FrameOf(e), true, true) && Owned(p, FrameOf(e), Leaf(pid, j))
  }

  ghost predicate Space(p: Pool, kernelPt: FrameNo, pid: nat, pdt: FrameNo, lowest: Word) {
    && Owned(p, pdt, Directory(pid))
    && Owned(p, TableOf(p, pdt), Table(pid))
    && p.mem[pdt][0] == Entry(kernelPt, true, true)
    && p.mem[pdt][1] == Entry(TableOf(p, pdt), true, true)
    && (forall i: Slot :: 2 <= i ==> p.mem[pdt][i] == 0)
    && lowest % 4096 == 0 && STACK_BASE <= lowest <= FIRST_STACK_PAGE
    && (forall j: Slot :: StackSlot(p, pid, pdt, lowest, j))
  }

  /** Every use a frame is recorded for is real. */
  ghost predicate Used(m: Machine, f: FrameNo, o: Owner) {
    match o
    case Free => f in m.pool.free
    case KernelTable => f == m.kernelPt
    case Directory(pid) => pid < |m.procs| && m.procs[pid].pdt == f
    case Table(pid) => pid < |m.procs| && m.procs[pid].pdt != 0 && TableOf(m.pool, m.procs[pid].pdt) == f
    case Leaf(pid, j) =>
      && pid < |m.procs| && m.procs[pid].pdt != 0
      && LowSlot(m.procs[pid].lowest) <= j && LeafOf(m.pool, m.procs[pid].pdt, j) == f
    case Abandoned(k) => k < |m.abandoned| && m.abandoned[k] == f
  }

  /** The frames of one process: directory, stack table and stack pages. */
  function FramesOf(p: Process): int {
    if p.pdt == 0 then 0 else 2 + (STACK_TOP - p.lowest) / 4096
  }

  function LiveFrames(procs: seq<Process>): int {
    if procs == [] then 0 else LiveFrames(procs[..|procs| - 1]) + FramesOf(procs[|procs| - 1])
  }

  ghost predicate Queued(m: Machine) {
    && NoDup(m.queue)
    && (forall pid: nat :: pid in m.queue <==> pid < |m.procs|)
  }

  ghost predicate Inv(m: Machine) {
    && PoolInv(m.pool)
    && Owned(m.pool, m.kernelPt, KernelTable) && m.pool.mem[m.kernelPt] == KernelPage()
    && (forall pid: nat :: pid < |m.procs| && m.procs[pid].pdt != 0 ==>
          Space(m.pool, m.kernelPt, pid, m.procs[pid].pdt, m.procs[pid].lowest))
    && (forall f: FrameNo :: f in m.pool.owner ==> Used(m, f, m.pool.owner[f]))
    && (forall k: nat :: k < |m.abandoned| ==> Owned(m.pool, m.abandoned[k], Abandoned(k)))
    && |m.abandoned| == m.kills
    && Queued(m)
    && Allocated(m.pool) == 1 + LiveFrames(m.procs) + m.kills
  }

  // ----- the steps -----

  datatype Event =
    | Enqueue(executable: Word)
    | Switch
    | UserFault(va: Word)
    | Exit
    | UserStore(va: Word, value: Word)

  predicate Running(m: Machine) {
    m.queue != [] && m.queue[0] < |m.procs| && m.procs[m.queue[0]].pdt != 0
  }

  function Current(m: Machine): Process
    requires Running(m)
  {
    m.procs[m.queue[0]]
  }

  /** The events the machine admits.  A fault may come at any address, even one the process has access
      to; stores go wherever user mode can write, except below the end of the kernel image; and there is
      something to switch to. */
  predicate Enabled(m: Machine, e: Event) {
    match e
    case Enqueue(_) => true
    case Switch => m.queue != []
    case UserFault(_) => Running(m)
    case Exit => Running(m)
    case UserStore(va, _) =>
      && Running(m) && va % 4 == 0
      && (va >= m.imageEnd || va >= STACK_BASE) && UserAccess(m.pool.mem, Current(m).pdt, va, true)
  }

  /** The running process faults when it touches va: it has no access. */
  predicate Faults(m: Machine, va: Word, write: bool) {
    Running(m) && !UserAccess(m.pool.mem, Current(m).pdt, va, write)
  }

  function EnqueueProcess(m: Machine, executable: Word): Machine {
    m.(procs := m.procs + [Process(executable, 0, 0, FreshContext(executable))],
       queue := m.queue + [|m.procs|])
  }

  /** switch_process; None stands for the kernel panic. */
  function SwitchProcess(m: Machine): Option<Machine>
    requires m.queue != []
  {
    var queue := Rotate(m.queue);
    var pid := queue[0];
    if pid < |m.procs| && m.procs[pid].pdt == 0 then
      match Create(m.pool, pid, Entry(m.kernelPt, true, true))
      case None => None
      case Some(g) =>
        var proc := m.procs[pid].(pdt := g.frame, lowest := FIRST_STACK_PAGE,
                                  ctx := FreshContext(m.procs[pid].executable));
        Some(m.(pool := g.pool, queue := queue, procs := m.procs[pid := proc]))
    else
      Some(m.(queue := queue))
  }

  /** What exit and the killing branches of pagefault_handler do before they switch. */
  function Kill(m: Machine): Machine
    requires Running(m)
  {
    var pid := m.queue[0];
    var pdt := m.procs[pid].pdt;
    var pool := ReleaseAll(m.pool, Walk(m.pool.mem, pdt, 1024));
    m.(pool := pool.(owner := pool.owner[pdt := Abandoned(m.kills)]),
       procs := m.procs[pid := m.procs[pid].(pdt := 0)],
       kills := m.kills + 1,
       abandoned := m.abandoned + [pdt])
  }

  datatype Growth = Growth(pool: Pool, lowest: Word)

  /** One turn of the loop in pagefault_handler. */
  function GrowPage(p: Pool, pid: nat, pdt: FrameNo, lowest: Word): Option<Growth>
    requires lowest >= 4096
  {
    var i := lowest - 4096;
    if Mounted(p.mem, pdt, i) then Some(Growth(p, i))
    else if !CanAlloc(p) then None
    else
      var leaf := Alloc(p, Leaf(pid, TableSlot(i)));
      match Mount(leaf.pool, Table(pid), pdt, i / 4096 * 4096, leaf.frame, true, true)
      case None => None
      case Some(q) => Some(Growth(q, i))
  }

  function Grow(p: Pool, pid: nat, pdt: FrameNo, lowest: Word, va: Word): Option<Growth>
    requires va >= 4096
    decreases lowest
  {
    if lowest <= va then Some(Growth(p, lowest))
    else
      match GrowPage(p, pid, pdt, lowest)
      case None => None
      case Some(g) => Grow(g.pool, pid, pdt, g.lowest, va)
  }

  predicate IsStackFault(va: Word) { STACK_BASE <= va < STACK_TOP }

  function Fault(m: Machine, va: Word): Option<Machine>
    requires Running(m)
  {
    if IsStackFault(va) then
      var pid := m.queue[0];
      match Grow(m.pool, pid, m.procs[pid].pdt, m.procs[pid].lowest, va)
      case None => None
      case Some(g) => Some(m.(pool := g.pool, procs := m.procs[pid := m.procs[pid].(lowest := g.lowest)]))
    else
      SwitchProcess(Kill(m))
  }

  function Store(m: Machine, va: Word, value: Word): Machine
    requires Enabled(m, UserStore(va, value))
  {
    var physical := Translate(m.pool.mem, Current(m).pdt, va).value.physical;
    m.(pool := Write(m.pool, FrameOf(physical), physical % 4096 / 4, value))
  }

  /** One step; None stands for the kernel panic. */
  function Step(m: Machine, e: Event): Option<Machine>
    requires Enabled(m, e)
  {
    match e
    case Enqueue(executable) => Some(EnqueueProcess(m, executable))
    case Switch => SwitchProcess(m)
    case UserFault(va) => Fault(m, va)
    case Exit => SwitchProcess(Kill(m))
    case UserStore(va, value) => Some(Store(m, va, value))
  }

  /** m' is reached from m by the events of the run, none of which panics. */
  ghost predicate Runs(m: Machine, run: seq<Event>, m': Machine)
    decreases |run|
  {
    if run == [] then m == m'
    else Enabled(m, run[0]) && Step(m, run[0]).Some? && Runs(Step(m, run[0]).value, run[1..], m')
  }

  /** The machine after setup_kernel_paging, over whatever RAM held at power-on. */
  function Boot(mem: Memory, imageEnd: Word): Machine {
    var g := Alloc(Pool(mem, FIRST_FRAME, 0, [], map[]), KernelTable);
    Machine(g.pool.(mem := g.pool.mem[g.frame := KernelPage()]), g.frame, imageEnd, [], [], 0, [])
  }
}

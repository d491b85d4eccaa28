/** The page-frame allocator of memmgnt.c.

    Physical memory is a table of frames of 1024 words.  A freed frame is
    linked into the free list through its own word 0, so one and the same word
    can be a free-list link, a page-table entry or user data, depending on who
    owns its frame.  A pointer to a page frame is the number of that frame; a
    word stored in memory is an address. */
module Frames {
  import opened Words

  /** Frame numbers of PAGE_SPACE_START and of PAGE_SPACE_END - PAGE_SIZE. */
  const FIRST_FRAME := 0x400
  const LAST_FRAME := 0x3FFFF

  type FrameNo = f: int | 0 <= f < 0x10_0000
  type Slot = i: int | 0 <= i < 1024
  type Page = p: seq<Word> | |p| == 1024 ghost witness seq(1024, _ => 0)
  type Memory = m: seq<Page> | |m| == 0x10_0000 ghost witness seq<Page>(0x10_0000, _ => ZeroPage())

  function ZeroPage(): Page { seq(1024, _ => 0) }

  /** What a frame of the page space is used for. */
  datatype Owner =
    | Free
    | KernelTable
    | Directory(pid: nat)
    | Table(pid: nat)
    | Leaf(pid: nat, page: Slot)
    | Abandoned(kill: nat)

  /** The allocator's variables (frame_edge, frame_free_list) with the memory
      they govern.  `free` lists the frames on the in-memory chain and `owner`
      says who owns each frame handed out so far. */
  datatype Pool = Pool(mem: Memory, edge: FrameNo, head: FrameNo, free: seq<FrameNo>, owner: map<FrameNo, Owner>)

  /** A frame just handed out, and the pool that remains. */
  datatype Grant = Grant(frame: FrameNo, pool: Pool)

  function Put(m: Memory, f: FrameNo, i: Slot, w: Word): Memory {
    m[f := m[f][i := w]]
  }

  /** The address of a frame, and the frame an address lies in. */
  function Address(f: FrameNo): Word { f * 4096 }

  function FrameOf(w: Word): FrameNo { w / 4096 }

  /** The k-th pointer of the free list: NULL after the last frame. */
  function Link(free: seq<FrameNo>, k: nat): FrameNo {
    if k < |free| then free[k] else 0
  }

  /** Starting at head and following word 0 of each frame visits exactly `free` and then NULL. */
  ghost predicate Chained(m: Memory, head: FrameNo, free: seq<FrameNo>) {
    && head == Link(free, 0)
    && forall k {:trigger free[k]} :: 0 <= k < |free| ==> m[free[k]][0] == Address(Link(free, k + 1))
  }

  ghost predicate PoolInv(p: Pool) {
    && FIRST_FRAME <= p.edge <= LAST_FRAME
    && Chained(p.mem, p.head, p.free)
    && NoDup(p.free)
    && (forall f: FrameNo :: f in p.owner <==> FIRST_FRAME <= f < p.edge)
    && (forall f: FrameNo {:trigger f in p.free} :: f in p.free <==> f in p.owner && p.owner[f] == Free)
  }

  /** A frame that was handed out and not given back. */
  ghost predicate Held(p: Pool, f: FrameNo) {
    f in p.owner && p.owner[f] != Free
  }

  /** How many more frames can be handed out before the allocator panics. */
  function Available(p: Pool): int {
    |p.free| + (LAST_FRAME - p.edge)
  }

  /** How many frames are handed out. */
  function Allocated(p: Pool): int {
    p.edge - FIRST_FRAME - |p.free|
  }

  predicate CanAlloc(p: Pool) {
    p.head != 0 || p.edge < LAST_FRAME
  }

  lemma CanAllocIff(p: Pool)
    requires PoolInv(p)
    ensures CanAlloc(p) <==> Available(p) > 0
    ensures p.head != 0 <==> |p.free| > 0
  {
    if |p.free| > 0 {
      assert p.free[0] in p.free;
    }
  }

  function Tail<T>(s: seq<T>): seq<T> {
    if s == [] then [] else s[1..]
  }

  /** malloc_page: the head of the free list, or the next frame above the edge. */
  function Alloc(p: Pool, o: Owner): (r: Grant)
    requires CanAlloc(p)
  {
    if p.head != 0 then
      Grant(p.head, p.(head := FrameOf(p.mem[p.head][0]), free := Tail(p.free), owner := p.owner[p.head := o]))
    else
      Grant(p.edge, p.(edge := p.edge + 1, owner := p.owner[p.edge := o]))
  }

  lemma AllocKeeps(p: Pool, o: Owner)
    requires PoolInv(p) && CanAlloc(p) && o != Free
    ensures var Grant(f, q) := Alloc(p, o);
            && PoolInv(q)
            && Held(q, f) && !Held(p, f) && f !in q.free && FIRST_FRAME <= f < LAST_FRAME
            && q.owner == p.owner[f := o]
            && q.mem == p.mem
            && Available(q) == Available(p) - 1
            && Allocated(q) == Allocated(p) + 1
  {
    CanAllocIff(p);
    var Grant(f, q) := Alloc(p, o);
    if p.head != 0 {
      assert p.head == p.free[0] && p.free[0] in p.free;
      assert q.head == Link(p.free, 1) == Link(q.free, 0);
      forall k | 0 <= k < |q.free| ensures q.mem[q.free[k]][0] == Address(Link(q.free, k + 1)) {
        assert q.free[k] == p.free[k + 1];
      }
      assert forall g :: g in p.free <==> g == p.free[0] || g in q.free;
    } else {
      CanAllocIff(p);
    }
  }

  /** calloc_page: a page from malloc_page, filled with zeros. */
  function Calloc(p: Pool, o: Owner): (r: Grant)
    requires CanAlloc(p)
  {
    var g := Alloc(p, o);
    Grant(g.frame, g.pool.(mem := g.pool.mem[g.frame := ZeroPage()]))
  }

  lemma CallocKeeps(p: Pool, o: Owner)
    requires PoolInv(p) && CanAlloc(p) && o != Free
    ensures var Grant(f, q) := Calloc(p, o);
            && PoolInv(q)
            && Held(q, f) && !Held(p, f) && f !in q.free && FIRST_FRAME <= f < LAST_FRAME
            && q.owner == p.owner[f := o]
            && q.mem == p.mem[f := ZeroPage()]
            && Available(q) == Available(p) - 1
            && Allocated(q) == Allocated(p) + 1
  {
    AllocKeeps(p, o);
  }

  /** A store into a frame that is handed out, or was never, leaves the free list alone. */
  function Write(p: Pool, f: FrameNo, i: Slot, w: Word): Pool {
    p.(mem := Put(p.mem, f, i, w))
  }

  lemma WriteKeeps(p: Pool, f: FrameNo, i: Slot, w: Word)
    requires PoolInv(p) && (f in p.owner ==> Held(p, f))
    ensures PoolInv(Write(p, f, i, w))
  {
    assert f !in p.free;
  }

  /** free_page: link the frame in front of the free list. */
  function Release(p: Pool, f: FrameNo): Pool {
    Pool(Put(p.mem, f, 0, Address(p.head)), p.edge, f, [f] + p.free, p.owner[f := Free])
  }

  lemma ReleaseKeeps(p: Pool, f: FrameNo)
    requires PoolInv(p) && Held(p, f)
    ensures PoolInv(Release(p, f))
    ensures Available(Release(p, f)) == Available(p) + 1
    ensures Allocated(Release(p, f)) == Allocated(p) - 1
  {
    var q := Release(p, f);
    assert f !in p.free;
    forall k | 0 <= k < |q.free| ensures q.mem[q.free[k]][0] == Address(Link(q.free, k + 1)) {
      if k > 0 {
        assert q.free[k] == p.free[k - 1];
        assert p.free[k - 1] in p.free;
      }
    }
    assert forall g :: g in q.free <==> g == f || g in p.free;
  }

  /** free_page applied to each frame of fs in turn. */
  function ReleaseAll(p: Pool, fs: seq<FrameNo>): Pool {
    if fs == [] then p else Release(ReleaseAll(p, fs[..|fs| - 1]), fs[|fs| - 1])
  }

  function Reverse<T>(s: seq<T>): (r: seq<T>)
    ensures |r| == |s|
  {
    if s == [] then [] else [s[|s| - 1]] + Reverse(s[..|s| - 1])
  }

  lemma ReverseAppend<T>(s: seq<T>, x: T, rest: seq<T>)
    ensures Reverse(s + [x]) + rest == [x] + (Reverse(s) + rest)
  {
    assert (s + [x])[..|s|] == s;
  }

  lemma {:induction false} ReleaseAllConcat(p: Pool, a: seq<FrameNo>, b: seq<FrameNo>)
    ensures ReleaseAll(p, a + b) == ReleaseAll(ReleaseAll(p, a), b)
  {
    if b == [] {
      assert a + b == a;
    } else {
      assert (a + b)[..|a + b| - 1] == a + b[..|b| - 1];
      ReleaseAllConcat(p, a, b[..|b| - 1]);
    }
  }

  ghost predicate Releasable(p: Pool, fs: seq<FrameNo>) {
    NoDup(fs) && forall f :: f in fs ==> Held(p, f)
  }

  /** q is p after the distinct held frames fs were pushed, in order, onto the free list: only
      word 0 of those frames changes, and it becomes the link to the frame pushed just before. */
  ghost predicate Released(p: Pool, fs: seq<FrameNo>, q: Pool) {
    && PoolInv(q)
    && q.edge == p.edge
    && q.free == Reverse(fs) + p.free
    && (forall f: FrameNo :: f !in fs ==> q.mem[f] == p.mem[f])
    && (forall f: FrameNo, i: Slot :: i != 0 ==> q.mem[f][i] == p.mem[f][i])
    && q.owner.Keys == p.owner.Keys
    && (forall f: FrameNo :: f in p.owner ==> q.owner[f] == if f in fs then Free else p.owner[f])
  }

  lemma ReleasedStep(p: Pool, fs: seq<FrameNo>, q: Pool, f: FrameNo)
    requires Released(p, fs, q)
    requires Held(p, f) && f !in fs
    ensures Released(p, fs + [f], Release(q, f))
  {
    ReleaseKeeps(q, f);
    var fs' := fs + [f];
    ReverseAppend(fs, f, p.free);
    assert forall g :: g in fs' <==> g in fs || g == f;
  }

  lemma ReleasedCounts(p: Pool, fs: seq<FrameNo>, q: Pool)
    requires Released(p, fs, q)
    ensures Available(q) == Available(p) + |fs| && Allocated(q) == Allocated(p) - |fs|
  {
    hide PoolInv;
  }

  lemma NothingReleased(p: Pool)
    requires PoolInv(p)
    ensures Released(p, [], p)
  {
    assert Reverse<FrameNo>([]) + p.free == p.free;
  }

  lemma ReleasableInit(p: Pool, init: seq<FrameNo>, f: FrameNo)
    requires Releasable(p, init + [f])
    ensures Releasable(p, init) && Held(p, f) && f !in init
  {
    var fs := init + [f];
    assert fs[|init|] == f && forall i :: 0 <= i < |init| ==> fs[i] == init[i];
    hide Held;
  }

  /** Freeing distinct held frames in turn has exactly the effect Released. */
  lemma {:induction false} ReleaseAllEffect(p: Pool, fs: seq<FrameNo>)
    requires PoolInv(p) && Releasable(p, fs)
    ensures Released(p, fs, ReleaseAll(p, fs))
    ensures Available(ReleaseAll(p, fs)) == Available(p) + |fs|
    ensures Allocated(ReleaseAll(p, fs)) == Allocated(p) - |fs|
  {
    if fs == [] {
      NothingReleased(p);
    } else {
      var init, f := fs[..|fs| - 1], fs[|fs| - 1];
      assert fs == init + [f] && ReleaseAll(p, fs) == Release(ReleaseAll(p, init), f);
      hide *;
      ReleasableInit(p, init, f);
      ReleaseAllEffect(p, init);
      ReleasedStep(p, init, ReleaseAll(p, init), f);
    }
    hide *;
    ReleasedCounts(p, fs, ReleaseAll(p, fs));
  }

  /** Following k links from the head of the chain. */
  function Follow(m: Memory, head: FrameNo, k: nat): FrameNo {
    if k == 0 then head else FrameOf(m[Follow(m, head, k - 1)][0])
  }

  /** The in-memory list is acyclic and ends: its k-th pointer is the k-th listed
      frame, and after the last one it is NULL. */
  lemma {:induction false} FreeListIsAcyclic(p: Pool, k: nat)
    requires PoolInv(p) && k <= |p.free|
    ensures Follow(p.mem, p.head, k) == Link(p.free, k)
    ensures Follow(p.mem, p.head, k) == 0 <==> k == |p.free|
  {
    if k > 0 {
      FreeListIsAcyclic(p, k - 1);
    }
    if k < |p.free| {
      assert p.free[k] in p.free;
    }
  }

  /** RAM, and the two statics of the allocator. */
  class FrameAllocator {
    const ram: array2<Word>
    var frameEdge: FrameNo
    var frameFreeList: FrameNo
    ghost var mem: Memory
    ghost var free: seq<FrameNo>
    ghost var owner: map<FrameNo, Owner>

    /** `mem` is what RAM holds. */
    ghost predicate Valid()
      reads this, ram
    {
      && ram.Length0 == 0x10_0000 && ram.Length1 == 1024
      && forall f: FrameNo, i: Slot :: ram[f, i] == mem[f][i]
    }

    ghost function Value(): Pool
      reads this
    {
      Pool(mem, frameEdge, frameFreeList, free, owner)
    }

    /** Power-on state: any memory contents, nothing handed out. */
    constructor (ram: array2<Word>)
      requires ram.Length0 == 0x10_0000 && ram.Length1 == 1024
      ensures this.ram == ram && Valid()
      ensures Value() == Pool(mem, FIRST_FRAME, 0, [], map[])
      ensures PoolInv(Value())
    {
      this.ram := ram;
      frameEdge := FIRST_FRAME;
      frameFreeList := 0;
      mem := seq<Page>(0x10_0000, f requires 0 <= f < 0x10_0000 reads ram =>
        seq(1024, i requires 0 <= i < 1024 reads ram => ram[f, i]));
      free := [];
      owner := map[];
    }

    method Load(f: FrameNo, i: Slot) returns (w: Word)
      requires Valid()
      ensures w == mem[f][i]
    {
      w := ram[f, i];
    }

    method Store(f: FrameNo, i: Slot, w: Word)
      requires Valid()
      modifies ram, this`mem
      ensures Valid() && Value() == Write(old(Value()), f, i, w)
    {
      ram[f, i] := w;
      mem := Put(mem, f, i, w);
    }

    /** malloc_page; None stands for the kernel panic. */
    method MallocPage(ghost o: Owner) returns (page: Option<FrameNo>)
      requires Valid()
      modifies this
      ensures Valid()
      ensures page.Some? <==> CanAlloc(old(Value()))
      ensures page.Some? ==> Grant(page.value, Value()) == Alloc(old(Value()), o)
      ensures page.None? ==> Value() == old(Value())
    {
      if frameFreeList != 0 {
        page := Some(frameFreeList);
        frameFreeList := ram[frameFreeList, 0] / 4096;
        free := Tail(free);
      } else {
        if frameEdge >= LAST_FRAME {
          return None;
        }
        page := Some(frameEdge);
        frameEdge := frameEdge + 1;
      }
      owner := owner[page.value := o];
    }

    /** calloc_page: malloc_page followed by memzero over the page. */
    method CallocPage(ghost o: Owner) returns (page: Option<FrameNo>)
      requires Valid()
      modifies this, ram
      ensures Valid()
      ensures page.Some? <==> CanAlloc(old(Value()))
      ensures page.Some? ==> Grant(page.value, Value()) == Calloc(old(Value()), o)
      ensures page.None? ==> Value() == old(Value())
    {
      page := MallocPage(o);
      if page.None? {
        return;
      }
      ghost var before := mem;
      var f := page.value;
      for i := 0 to 1024
        invariant Valid() && mem == before[f := mem[f]]
        invariant forall k: Slot :: k < i ==> mem[f][k] == 0
        invariant Value() == Alloc(old(Value()), o).pool.(mem := mem)
      {
        Store(f, i, 0);
      }
      assert mem[f] == ZeroPage();
    }

    /** free_page. */
    method FreePage(page: FrameNo)
      requires Valid()
      modifies this, ram
      ensures Valid()
      ensures Value() == Release(old(Value()), page)
    {
      Store(page, 0, frameFreeList * 4096);
      frameFreeList := page;
      free := [page] + free;
      owner := owner[page := Free];
    }
  }
}

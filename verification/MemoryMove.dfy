/** The byte routines and the arena allocator of memmgnt.c. */
module MemoryMove {
  import opened Words

  /** memmove within one memory: the destination receives what the source held before the call, however
      the two overlap, and nothing else changes. */
  method MemMove(memory: array<Byte>, dest: nat, src: nat, count: nat)
    requires dest + count <= memory.Length && src + count <= memory.Length
    modifies memory
    ensures memory[..][dest..dest + count] == old(memory[..])[src..src + count]
    ensures forall k :: 0 <= k < memory.Length && !(dest <= k < dest + count) ==> memory[k] == old(memory[k])
  {
    var distance := dest - src;
    if distance > 0 && distance < count {
      for i := 0 to count
        invariant forall k :: 0 <= k < memory.Length ==>
                    memory[k] == if dest + count - i <= k < dest + count then old(memory[k - dest + src])
                                 else old(memory[k])
      {
        memory[dest + count - i - 1] := memory[src + count - i - 1];
      }
      Moved(memory[..], old(memory[..]), dest, src, count);
      return;
    }
    for i := 0 to count
      invariant forall k :: 0 <= k < memory.Length ==>
                  memory[k] == if dest <= k < dest + i then old(memory[k - dest + src]) else old(memory[k])
    {
      memory[dest + i] := memory[src + i];
    }
    Moved(memory[..], old(memory[..]), dest, src, count);
  }

  lemma Moved(after: seq<Byte>, before: seq<Byte>, dest: nat, src: nat, count: nat)
    requires dest + count <= |after| == |before| && src + count <= |before|
    requires forall k :: dest <= k < dest + count ==> after[k] == before[k - dest + src]
    ensures after[dest..dest + count] == before[src..src + count]
  {
    var a := after[dest..dest + count];
    forall k | 0 <= k < count ensures a[k] == before[src..src + count][k] {
      assert a[k] == after[dest + k];
    }
  }

  /** memset; only the low byte of the value is stored. */
  method MemSet(memory: array<Byte>, dest: nat, ch: int, count: nat)
    requires dest + count <= memory.Length
    modifies memory
    ensures forall k :: 0 <= k < memory.Length ==>
              memory[k] == if dest <= k < dest + count then ch % 256 else old(memory[k])
  {
    for i := 0 to count
      invariant forall k :: 0 <= k < memory.Length ==>
                  memory[k] == if dest <= k < dest + i then ch % 256 else old(memory[k])
    {
      memory[dest + i] := ch % 256;
    }
  }

  const ARENA_START := 0x10_0000
  const ARENA_END := 0x40_0000

  datatype Block = Block(start: int, size: int)

  /** The immortal arena: blocks are handed out upwards and never returned. */
  class ImmortalArena {
    var current: int
    ghost var blocks: seq<Block>

    /** The blocks lie in the arena below `current`, in order and without overlap. */
    ghost predicate Valid()
      reads this
    {
      && ARENA_START <= current <= ARENA_END
      && (forall i :: 0 <= i < |blocks| ==>
            ARENA_START <= blocks[i].start && 0 < blocks[i].size && blocks[i].start + blocks[i].size <= current)
      && (forall i, j :: 0 <= i < j < |blocks| ==> blocks[i].start + blocks[i].size <= blocks[j].start)
    }

    constructor ()
      ensures Valid() && blocks == [] && current == 0x10_0000
    {
      current := ARENA_START;
      blocks := [];
    }

    /** malloc_immortal: the first aligned address that leaves room.  None stands for the kernel panic, and
        also for the NULL returned for size 0. */
    method Malloc(size: nat, alignment0: nat) returns (r: Option<int>)
      requires Valid()
      modifies this
      ensures Valid()
      ensures var alignment := if alignment0 == 0 then 1 else alignment0;
              var start := (old(current) + (alignment - 1)) / alignment * alignment;
              && (r.Some? <==> size > 0 && start + size <= 0x40_0000)
              && (r.Some? ==>
                    && r.value == start && start % alignment == 0 && old(current) <= start < old(current) + alignment
                    && blocks == old(blocks) + [Block(start, size)] && current == start + size)
              && (r.None? ==> blocks == old(blocks) && current == old(current))
    {
      if size == 0 {
        return None;
      }
      var alignment := if alignment0 == 0 then 1 else alignment0;
      var cur := (current + (alignment - 1)) / alignment * alignment;
      RoundUp(current, alignment);
      if cur < ARENA_END && ARENA_END - cur >= size {
        current := cur + size;
        blocks := blocks + [Block(cur, size)];
        r := Some(cur);
      } else {
        r := None;
      }
    }
  }

  /** Rounding up gives the least multiple that is not below. */
  lemma RoundUp(n: int, a: int)
    requires n >= 0 && a > 0
    ensures var m := (n + (a - 1)) / a * a;
            n <= m < n + a && m % a == 0
  {
    var q := (n + (a - 1)) / a;
    assert n + (a - 1) == a * q + (n + (a - 1)) % a;
    MultipleMod(q, a);
  }

  lemma MultipleMod(q: int, a: int)
    requires a > 0
    ensures q * a % a == 0
  {
    var d, r := q * a / a, q * a % a;
    assert q * a == a * d + r;
    assert a * (q - d) == r;
    Sandwich(q - d, a, r);
  }

  lemma ProductAtLeast(a: int, e: int)
    requires a > 0
    ensures e > 0 ==> a * e >= a
    ensures e < 0 ==> a * e <= -a
  {
  }

  lemma Sandwich(e: int, a: int, r: int)
    requires a > 0 && 0 <= r < a && a * e == r
    ensures r == 0
  {
    ProductAtLeast(a, e);
  }
}

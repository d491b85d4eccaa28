/** The scheduler's ring of nodes (scheduler.c), a doubly linked circular list. */
module Scheduler {
  import opened Words
  import opened RotatingQueue

  class Node {
    var next: Node
    var prev: Node
    var pid: nat

    constructor ()
    {
      next, prev := this, this;
    }
  }

  class Scheduler {
    /** How many nodes the arena has room for, and how many were taken from it. */
    const capacity: nat
    var front: nat
    var current: Node?
    /** The nodes in `next` order, the current one first. */
    ghost var ring: seq<Node>

    ghost predicate Valid()
      reads this, ring
    {
      && NoDup(ring)
      && (current == null <==> ring == [])
      && (ring != [] ==> current == ring[0])
      && Linked(ring)
      && |ring| == front <= capacity
    }

    constructor (capacity: nat)
      ensures Valid() && ring == [] && this.capacity == capacity && front == 0
    {
      this.capacity := capacity;
      front := 0;
      current := null;
      ring := [];
    }

    /** schedule_process: the new node goes right behind the current one, at the back of the queue.
        None stands for the kernel panic when the arena is full. */
    method ScheduleProcess() returns (r: Option<Node>)
      requires Valid()
      modifies this, ring
      ensures r.None? <==> old(front) == capacity
      ensures r.None? ==> Valid() && ring == old(ring)
      ensures r.Some? ==> Valid() && fresh(r.value) && ring == old(ring) + [r.value] && r.value.pid == old(front)
      ensures forall n :: n in old(ring) ==> n.pid == old(n.pid)
    {
      if front >= capacity {
        return None;
      }
      var node := new Node();
      if current != null {
        ghost var last := ring[|ring| - 1];
        assert current.prev == last;
        node.prev := current.prev;
        node.next := current;
        current.prev.next := node;
        current.prev := node;
      } else {
        node.prev := node;
        node.next := node;
        current := node;
      }
      node.pid := front;
      front := front + 1;
      ring := ring + [node];
      r := Some(node);
    }

    /** scheduler_next_process. */
    method NextProcess() returns (node: Node)
      requires Valid() && ring != []
      modifies this
      ensures Valid() && ring == Rotate(old(ring)) && node == ring[0] == current
    {
      RotateKeeps(ring);
      current := current.next;
      ring := Rotate(ring);
      node := current;
    }
  }

  /** next and prev go round the ring in opposite directions. */
  ghost predicate Linked(ring: seq<Node>)
    reads ring
  {
    forall i :: 0 <= i < |ring| ==>
      && ring[i].next == ring[if i + 1 < |ring| then i + 1 else 0]
      && ring[i].prev == ring[if i > 0 then i - 1 else |ring| - 1]
  }

  /** They are inverse to one another on the ring, and next leads through all of it. */
  lemma NextAndPrevAreInverse(ring: seq<Node>, n: Node)
    requires Linked(ring) && n in ring
    ensures n.next in ring && n.prev in ring
    ensures n.next.prev == n && n.prev.next == n
  {
    var i :| 0 <= i < |ring| && ring[i] == n;
    assert ring[if i + 1 < |ring| then i + 1 else 0].prev == n;
    assert ring[if i > 0 then i - 1 else |ring| - 1].next == n;
  }

  /** The node k links ahead. */
  ghost function Ahead(ring: seq<Node>, n: Node, k: nat): Node
    reads ring
    requires Linked(ring) && n in ring
    ensures Ahead(ring, n, k) in ring
  {
    if k == 0 then n
    else
      var m := Ahead(ring, n, k - 1);
      NextAndPrevAreInverse(ring, m);
      m.next
  }

  /** One cycle: following next from the front meets every node in turn and then the front again. */
  lemma {:induction false} OneCycle(ring: seq<Node>, k: nat)
    requires Linked(ring) && ring != [] && k <= |ring|
    ensures Ahead(ring, ring[0], k) == if k < |ring| then ring[k] else ring[0]
  {
    if k > 0 {
      OneCycle(ring, k - 1);
    }
  }
}

/** Round-robin scheduling as a queue whose front is the current process. */
module RotatingQueue {
  import opened Words

  /** The front goes to the back. */
  function Rotate<T>(q: seq<T>): seq<T> {
    if q == [] then [] else q[1..] + q[..1]
  }

  lemma RotateKeeps<T>(q: seq<T>)
    ensures NoDup(q) ==> NoDup(Rotate(q))
    ensures forall x :: x in Rotate(q) <==> x in q
    ensures |Rotate(q)| == |q|
  {
    if q != [] {
      assert q == q[..1] + q[1..];
    }
  }

  /** The queue after k switches. */
  function Rotations<T>(q: seq<T>, k: nat): seq<T>
    decreases k
  {
    if k == 0 then q else Rotations(Rotate(q), k - 1)
  }

  lemma {:induction false} RotationsAre<T>(q: seq<T>, k: nat)
    requires k <= |q|
    ensures Rotations(q, k) == q[k..] + q[..k]
    decreases k
  {
    if k > 0 {
      RotationsAre(Rotate(q), k - 1);
      assert Rotate(q)[k - 1..] == q[k..] + q[..1];
      assert Rotate(q)[..k - 1] == q[1..][..k - 1];
      assert q[..1] + q[1..][..k - 1] == q[..k];
      assert (q[k..] + q[..1]) + q[1..][..k - 1] == q[k..] + (q[..1] + q[1..][..k - 1]);
    } else {
      assert q[0..] + q[..0] == q;
    }
  }

  /** The processes that become current during k switches, in order. */
  function Visited<T>(q: seq<T>, k: nat): seq<T>
    requires q != []
    decreases k
  {
    if k == 0 then [] else RotateKeeps(q); [Rotate(q)[0]] + Visited(Rotate(q), k - 1)
  }

  /** n switches over n processes visit each of them once, in ring order, and come back to the start. */
  lemma FullRound<T>(q: seq<T>)
    requires q != [] && NoDup(q)
    ensures Visited(q, |q|) == q[1..] + q[..1]
    ensures NoDup(Visited(q, |q|)) && forall x :: x in Visited(q, |q|) <==> x in q
    ensures Rotations(q, |q|) == q
  {
    RotationsAre(q, |q|);
    VisitedAre(q, |q|);
    RotateKeeps(q);
    assert q[|q|..] + q[..|q|] == q;
  }

  lemma {:induction false} VisitedAre<T>(q: seq<T>, k: nat)
    requires q != [] && k <= |q|
    ensures Visited(q, k) == (q[1..] + q[..1])[..k]
    decreases k
  {
    if k > 0 {
      RotateKeeps(q);
      VisitedAre(Rotate(q), k - 1);
      var r := Rotate(q);
      assert (r[1..] + r[..1])[..k - 1] == r[1..k];
      assert [r[0]] + r[1..k] == r[..k];
    }
  }

  // ----- insertions in between -----

  datatype Op<T> = Join(x: T) | Turn

  /** A process that is inserted joins at the back. */
  function Apply<T>(q: seq<T>, op: Op<T>): seq<T> {
    match op
    case Join(x) => q + [x]
    case Turn => Rotate(q)
  }

  function ApplyAll<T>(q: seq<T>, ops: seq<Op<T>>): seq<T>
    decreases |ops|
  {
    if ops == [] then q else ApplyAll(Apply(q, ops[0]), ops[1..])
  }

  function Switches<T>(ops: seq<Op<T>>): nat
    decreases |ops|
  {
    if ops == [] then 0 else (if ops[0].Turn? then 1 else 0) + Switches(ops[1..])
  }

  /** After any operations with exactly d switches among them, the current process is the one that was
      d steps ahead at the start, whatever was inserted meanwhile: it runs on the d-th switch. */
  lemma {:induction false} RunsOnItsTurn<T>(q: seq<T>, ops: seq<Op<T>>)
    requires Switches(ops) < |q|
    ensures ApplyAll(q, ops) != [] && ApplyAll(q, ops)[0] == q[Switches(ops)]
    decreases |ops|
  {
    if ops != [] {
      RotateKeeps(q);
      RunsOnItsTurn(Apply(q, ops[0]), ops[1..]);
    }
  }

  /** And on no earlier one. */
  lemma RunsNoEarlier<T>(q: seq<T>, ops: seq<Op<T>>, d: nat)
    requires NoDup(q) && Switches(ops) < d < |q|
    ensures ApplyAll(q, ops) != [] && ApplyAll(q, ops)[0] != q[d]
  {
    RunsOnItsTurn(q, ops);
  }
}

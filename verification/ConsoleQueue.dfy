// The console queue of kernel/vfs/std.c: a linked list with head, tail and size.
module ConsoleQueue {
  import opened Bits

  // ---- runs of atomic steps --------------------------------------------------------------------------

  datatype Step = Put(val: Byte) | Get

  /** The queue after a run of atomic steps. */
  function QueueAfter(queue: seq<Byte>, steps: seq<Step>): seq<Byte>
    decreases |steps|
  {
    if steps == [] then queue else
      match steps[0]
      case Put(val) => QueueAfter(queue + [val], steps[1..])
      case Get => QueueAfter(if queue == [] then [] else queue[1..], steps[1..])
  }

  /** The bytes the gets of a run return, leaving out those on an empty queue. */
  function Taken(queue: seq<Byte>, steps: seq<Step>): seq<Byte>
    decreases |steps|
  {
    if steps == [] then [] else
      match steps[0]
      case Put(val) => Taken(queue + [val], steps[1..])
      case Get => if queue == [] then Taken([], steps[1..]) else [queue[0]] + Taken(queue[1..], steps[1..])
  }

  function Puts(steps: seq<Step>): seq<Byte>
    decreases |steps|
  {
    if steps == [] then [] else (if steps[0].Put? then [steps[0].val] else []) + Puts(steps[1..])
  }

  /** The three functions, one step at a time. */
  lemma FirstStep(queue: seq<Byte>, steps: seq<Step>, rest: seq<Step>)
    requires steps != [] && rest == steps[1..]
    ensures steps[0].Put? ==>
      && QueueAfter(queue, steps) == QueueAfter(queue + [steps[0].val], rest)
      && Taken(queue, steps) == Taken(queue + [steps[0].val], rest) && Puts(steps) == [steps[0].val] + Puts(rest)
    ensures steps[0].Get? ==> Puts(steps) == Puts(rest)
    ensures steps[0].Get? && queue == [] ==>
      QueueAfter(queue, steps) == QueueAfter(queue, rest) && Taken(queue, steps) == Taken(queue, rest)
    ensures steps[0].Get? && queue != [] ==>
      QueueAfter(queue, steps) == QueueAfter(queue[1..], rest)
        && Taken(queue, steps) == [queue[0]] + Taken(queue[1..], rest)
  {
  }

  lemma NoSteps(queue: seq<Byte>)
    ensures QueueAfter(queue, []) == queue && Taken(queue, []) == [] && Puts([]) == []
  {
  }

  /** Over every interleaving nothing is lost, invented or reordered. */
  lemma {:induction false} FifoOverRuns(queue: seq<Byte>, steps: seq<Step>)
    ensures Taken(queue, steps) + QueueAfter(queue, steps) == queue + Puts(steps)
    decreases |steps|
  {
    hide *;
    if steps == [] {
      NoSteps(queue);
    } else {
      var rest := steps[1..];
      FirstStep(queue, steps, rest);
      if steps[0].Put? {
        FifoOverRuns(queue + [steps[0].val], rest);
        assert queue + [steps[0].val] + Puts(rest) == queue + ([steps[0].val] + Puts(rest));
      } else if queue == [] {
        FifoOverRuns(queue, rest);
      } else {
        FifoOverRuns(queue[1..], rest);
        JoinFront(queue, Taken(queue[1..], rest), QueueAfter(queue[1..], rest), Puts(rest));
      }
    }
  }

  lemma JoinFront(queue: seq<Byte>, a: seq<Byte>, b: seq<Byte>, c: seq<Byte>)
    requires queue != [] && a + b == queue[1..] + c
    ensures [queue[0]] + a + b == queue + c
  {
    assert [queue[0]] + a + b == [queue[0]] + (a + b);
    assert [queue[0]] + (queue[1..] + c) == queue + c;
  }

  // ---- the queue -------------------------------------------------------------------------------------

  class Elt {
    var next: Elt?
    var val: Byte

    constructor (val: Byte)
      ensures this.val == val && next == null
    {
      next, this.val := null, val;
    }
  }

  class Std {
    var first: Elt?
    var last: Elt?
    var size: Word
    ghost var spine: seq<Elt>
    ghost var put: seq<Byte>
    ghost var taken: seq<Byte>

    /** init_std: the zeroed structure is an empty queue. */
    constructor ()
      ensures Valid() && spine == [] && put == [] && taken == []
    {
      first, last, size := null, null, 0;
      spine, put, taken := [], [], [];
    }

    ghost predicate Linked()
      reads this, spine
    {
      && (forall i | 0 <= i < |spine| :: NodeAt(spine, i))
      && (forall i, j | 0 <= i < j < |spine| :: spine[i] != spine[j])
    }

    ghost predicate NodeAt(s: seq<Elt>, i: nat)
      requires i < |s|
      reads s
    {
      s[i].next == if i + 1 < |s| then s[i + 1] else null
    }

    /** The bytes queued, oldest first. */
    ghost function Contents(): (s: seq<Byte>)
      reads this, spine
      ensures |s| == |spine|
    {
      seq(|spine|, i requires 0 <= i < |spine| reads this, spine => spine[i].val)
    }

    /**
     * The list is the spine, size counts it, last is its final node - null exactly when it is
     * empty - and the bytes taken followed by the bytes queued are the bytes put.
     */
    ghost predicate Valid()
      reads this, spine
    {
      && Linked() && size == |spine|
      && first == (if spine == [] then null else spine[0])
      && last == (if spine == [] then null else spine[|spine| - 1])
      && put == taken + Contents()
    }

    /** std_put. */
    method Put(val: Byte)
      requires Valid() && size < 0xFFFF_FFFF
      modifies this, if last == null then {} else {last}
      ensures Valid() && Contents() == old(Contents()) + [val]
      ensures put == old(put) + [val] && taken == old(taken) && size == old(size) + 1
      ensures fresh(spine[|spine| - 1]) && spine == old(spine) + [spine[|spine| - 1]]
    {
      ghost var s := spine;
      var elt := new Elt(val);
      if s != [] { assert NodeAt(s, |s| - 1); }
      if last != null {
        last.next := elt;
      }
      last := elt;
      if first == null {
        first := elt;
      }
      size := Wrap(size as int + 1);
      spine, put := spine + [elt], put + [val];
      forall i | 0 <= i < |spine| ensures NodeAt(spine, i) {
        if i < |s| - 1 { assert old(NodeAt(s, i)); }
      }
      assert Contents() == old(Contents()) + [val];
    }

    /** std_get: the oldest byte, or 0 and no change when the queue is empty. */
    method Get() returns (c: Byte)
      requires Valid()
      modifies this
      ensures Valid()
      ensures old(spine) == [] ==> c == 0 && taken == old(taken) && spine == old(spine) && size == old(size)
      ensures old(spine) != [] ==>
        && [c] + Contents() == old(Contents()) && taken == old(taken) + [c]
        && spine == old(spine)[1..] && size == old(size) - 1
      ensures put == old(put)
    {
      if first == null {
        return 0;
      }
      ghost var s := spine;
      assert NodeAt(s, 0);
      c := first.val;
      var elt := first;
      first := elt.next;
      if size == 1 {
        last := null;
      }
      size := Wrap(size as int - 1);
      spine, taken := spine[1..], taken + [c];
      forall i | 0 <= i < |spine| ensures NodeAt(spine, i) {
        assert NodeAt(s, i + 1);
      }
      assert [c] + Contents() == old(Contents());
    }

    /**
     * Any interleaving of atomic std_put and std_get steps on one queue: the bytes the gets return
     * and the bytes left are those of the sequence the queue stands for.
     */
    method RunSteps(steps: seq<Step>) returns (got: seq<Byte>)
      requires Valid() && size + |steps| <= 0xFFFF_FFFF
      modifies this, spine
      ensures Valid() && Contents() == QueueAfter(old(Contents()), steps)
      ensures got == Taken(old(Contents()), steps) && put == old(put) + Puts(steps)
      ensures got + Contents() == old(Contents()) + Puts(steps)
    {
      hide QueueAfter, Taken, Puts, Linked;
      got := [];
      ghost var q0, nodes, made := Contents(), spine, {};
      ghost var put0 := put;
      assert steps[0..] == steps;
      for i := 0 to |steps|
        invariant Valid() && size + (|steps| - i) <= 0xFFFF_FFFF
        invariant (forall e | e in spine :: e in nodes || e in made) && fresh(made)
        invariant QueueAfter(q0, steps) == QueueAfter(Contents(), steps[i..])
        invariant Taken(q0, steps) == got + Taken(Contents(), steps[i..])
        invariant put + Puts(steps[i..]) == put0 + Puts(steps)
      {
        ghost var q := Contents();
        assert steps[i..][1..] == steps[i + 1..];
        FirstStep(q, steps[i..], steps[i + 1..]);
        match steps[i]
        case Put(val) =>
          assert last == null || last in nodes || last in made by {
            assert last == null || last in spine;
          }
          Put(val);
          made := made + {spine[|spine| - 1]};
        case Get =>
          var empty := first == null;
          var c := Get();
          if !empty {
            assert q[0] == c && q[1..] == Contents();
            got := got + [c];
          }
      }
      NoSteps(Contents());
      FifoOverRuns(q0, steps);
    }
  }
}

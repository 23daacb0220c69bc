/** Clients of the dequeue: what a caller can conclude from the contracts of
    Collections.Dequeue alone, for the behaviours a caller relies on. */
module DequeueScenarios {

  import opened Ring
  import opened Collections

  /** One operation on a double-ended queue. */
  datatype Op<T> = PushBack(x: T) | PushFront(x: T) | PopFront | PopBack

  /** The reference dequeue on sequences; a removal from an empty one is
      skipped, as a caller that checks Count first would do. */
  function Step<T>(s: seq<T>, op: Op<T>): seq<T>
  {
    match op
    case PushBack(x) => s + [x]
    case PushFront(x) => [x] + s
    case PopFront => if s == [] then s else s[1..]
    case PopBack => if s == [] then s else s[..|s| - 1]
  }

  function Run<T>(s: seq<T>, ops: seq<Op<T>>): seq<T>
    decreases |ops|
  {
    if ops == [] then s else Run(Step(s, ops[0]), ops[1..])
  }

  /** The number of insertions among ops. */
  function Inserts<T>(ops: seq<Op<T>>): nat
    decreases |ops|
  {
    if ops == [] then 0
    else (if ops[0].PushBack? || ops[0].PushFront? then 1 else 0) + Inserts(ops[1..])
  }

  /** The number of removals among ops that the reference dequeue, started
      at s, makes: a PopFront or PopBack reached while it is non-empty. */
  function Removals<T>(s: seq<T>, ops: seq<Op<T>>): nat
    decreases |ops|
  {
    if ops == [] then 0 else
      var r := if (ops[0].PopFront? || ops[0].PopBack?) && s != [] then 1 else 0;
      r + Removals(Step(s, ops[0]), ops[1..])
  }

  /** The reference run's length: every insertion adds one element and every
      removal that finds an element takes one away. */
  lemma {:induction false} RunLength<T>(s: seq<T>, ops: seq<Op<T>>)
    ensures |Run(s, ops)| + Removals(s, ops) == |s| + Inserts(ops)
    decreases |ops|
  {
    if ops != [] {
      RunLength(Step(s, ops[0]), ops[1..]);
    }
  }

  lemma {:induction false} InsertsAppend<T>(ops: seq<Op<T>>, op: Op<T>)
    ensures Inserts(ops + [op]) == Inserts(ops) + (if op.PushBack? || op.PushFront? then 1 else 0)
    decreases |ops|
  {
    if ops != [] {
      assert (ops + [op])[1..] == ops[1..] + [op];
      InsertsAppend(ops[1..], op);
    }
  }

  /** Taking one more operation: the reference run, the insertion count and
      the removal count all advance by that operation. */
  lemma ReplayStep<T>(s: seq<T>, ops: seq<Op<T>>, i: int)
    requires 0 <= i < |ops|
    ensures Run(s, ops[i..]) == Run(Step(s, ops[i]), ops[i + 1..])
    ensures Inserts(ops[..i + 1]) == Inserts(ops[..i]) + (if ops[i].PushBack? || ops[i].PushFront? then 1 else 0)
    ensures |Step(s, ops[i])| == |s| + (if ops[i].PushBack? || ops[i].PushFront? then 1 else 0)
      - (if (ops[i].PopFront? || ops[i].PopBack?) && s != [] then 1 else 0)
    ensures Removals(s, ops[i..]) == (if (ops[i].PopFront? || ops[i].PopBack?) && s != [] then 1 else 0)
      + Removals(Step(s, ops[i]), ops[i + 1..])
  {
    assert ops[..i + 1] == ops[..i] + [ops[i]];
    InsertsAppend(ops[..i], ops[i]);
    assert ops[i..][0] == ops[i] && ops[i..][1..] == ops[i + 1..];
  }

  /** Performs one operation on q, skipping a removal when q is empty. */
  method Perform<T>(q: Dequeue<T>, op: Op<T>) returns (removedOne: bool)
    requires q.Valid()
    modifies q.Repr
    ensures q.Valid() && fresh(q.Repr - old(q.Repr))
    ensures q.Contents == Step(old(q.Contents), op)
    ensures removedOne == ((op.PopFront? || op.PopBack?) && old(q.Contents) != [])
  {
    removedOne := false;
    match op {
      case PushBack(x) =>
        q.EnqueueTail(x);
      case PushFront(x) =>
        q.EnqueueHead(x);
      case PopFront =>
        if q.Count() > 0 {
          var _ := q.DequeueHead();
          removedOne := true;
        }
      case PopBack =>
        if q.Count() > 0 {
          var _ := q.DequeueTail();
          removedOne := true;
        }
    }
  }

  /** Replays ops on a fresh dequeue, skipping removals when it is empty:
      the dequeue ends up holding what the reference dequeue holds, and its
      count is the number of insertions less the number of removals that
      found an element, and those are the removals the reference makes. */
  method Replay<T>(ops: seq<Op<T>>, dflt: T) returns (contents: seq<T>, count: int, removed: nat)
    ensures contents == Run([], ops)
    ensures removed == Removals([], ops)
    ensures count == |contents| && count == Inserts(ops) - removed
  {
    var q := new Dequeue<T>(dflt);
    var i := 0;
    removed := 0;
    while i < |ops|
      invariant 0 <= i <= |ops|
      invariant q.Valid() && fresh(q.Repr)
      invariant Run(q.Contents, ops[i..]) == Run([], ops)
      invariant |q.Contents| == Inserts(ops[..i]) - removed
      invariant removed + Removals(q.Contents, ops[i..]) == Removals([], ops)
    {
      ReplayStep(q.Contents, ops, i);
      var removedOne := Perform(q, ops[i]);
      // Splits the proof by the operation's kind; the step facts above are
      // stated per kind.
      assert ops[i].PushBack? || ops[i].PushFront? || ops[i].PopFront? || ops[i].PopBack?;
      if removedOne {
        removed := removed + 1;
      }
      i := i + 1;
    }
    assert ops[..i] == ops;
    contents := q.Enumerate();
    count := q.Count();
  }

  /** A fresh dequeue holding xs, built by tail insertions. */
  method FillAtTail<T>(xs: seq<T>, dflt: T) returns (q: Dequeue<T>)
    ensures q.Valid() && fresh(q.Repr) && q.Contents == xs
  {
    q := new Dequeue<T>(dflt);
    var i := 0;
    while i < |xs|
      invariant 0 <= i <= |xs|
      invariant q.Valid() && fresh(q.Repr)
      invariant q.Contents == xs[..i]
    {
      assert xs[..i + 1] == xs[..i] + [xs[i]];
      q.EnqueueTail(xs[i]);
      i := i + 1;
    }
    assert xs[..i] == xs;
  }

  /** Dequeues everything from the head: the items come out front first. */
  method DrainFromHead<T>(q: Dequeue<T>) returns (ys: seq<T>)
    requires q.Valid()
    modifies q.Repr
    ensures q.Valid() && q.Repr == old(q.Repr)
    ensures ys == old(q.Contents) && q.Contents == []
  {
    ys := [];
    while q.Count() > 0
      invariant q.Valid() && q.Repr == old(q.Repr)
      invariant ys + q.Contents == old(q.Contents)
      decreases |q.Contents|
    {
      ghost var before := q.Contents;
      var x := q.DequeueHead();
      assert before == [x] + q.Contents;
      ys := ys + [x];
    }
  }

  /** Dequeues everything from the tail: the items come out back first. */
  method DrainFromTail<T>(q: Dequeue<T>) returns (ys: seq<T>)
    requires q.Valid()
    modifies q.Repr
    ensures q.Valid() && q.Repr == old(q.Repr) && q.Contents == []
    ensures |ys| == |old(q.Contents)|
    ensures forall i :: 0 <= i < |ys| ==> ys[i] == old(q.Contents)[|ys| - 1 - i]
  {
    ys := [];
    while q.Count() > 0
      invariant q.Valid() && q.Repr == old(q.Repr)
      invariant q.Contents == old(q.Contents)[..|q.Contents|]
      invariant |ys| + |q.Contents| == |old(q.Contents)|
      invariant forall k :: 0 <= k < |ys| ==> ys[k] == old(q.Contents)[|old(q.Contents)| - 1 - k]
      decreases |q.Contents|
    {
      var x := q.DequeueTail();
      ys := ys + [x];
    }
  }

  /** Enqueueing at the tail and dequeueing at the head gives the elements
      back in order (first in, first out), across every growth on the way. */
  method FifoRoundTrip<T>(xs: seq<T>, dflt: T) returns (ys: seq<T>)
    ensures ys == xs
  {
    var q := FillAtTail(xs, dflt);
    ys := DrainFromHead(q);
  }

  /** Enqueueing at the tail and dequeueing at the tail gives the elements
      back reversed (last in, first out). */
  method LifoRoundTrip<T>(xs: seq<T>, dflt: T) returns (ys: seq<T>)
    ensures |ys| == |xs|
    ensures forall i :: 0 <= i < |xs| ==> ys[i] == xs[|xs| - 1 - i]
  {
    var q := FillAtTail(xs, dflt);
    ys := DrainFromTail(q);
  }

  /** Pushing at the head and popping at the head returns the pushed value
      and restores the contents, from any state. */
  method HeadSymmetry<T>(q: Dequeue<T>, x: T) returns (y: T)
    requires q.Valid()
    modifies q.Repr
    ensures q.Valid() && fresh(q.Repr - old(q.Repr))
    ensures y == x && q.Contents == old(q.Contents) && q.Count() == old(q.Count())
  {
    q.EnqueueHead(x);
    y := q.DequeueHead();
  }

  /** Both ends at once: tail 1, tail 2, head 0, then head, head, tail. */
  method MixedEnds() returns (countBefore: int, first: int, second: int, third: int, countAfter: int)
    ensures countBefore == 3 && countAfter == 0
    ensures first == 0 && second == 1 && third == 2
  {
    var q := new Dequeue<int>(0);
    q.EnqueueTail(1);
    q.EnqueueTail(2);
    q.EnqueueHead(0);
    countBefore := q.Count();
    first := q.DequeueHead();
    second := q.DequeueHead();
    third := q.DequeueTail();
    countAfter := q.Count();
  }

  /** Six tail insertions grow the capacity 0, 4, 8 and come out of the head
      in order. */
  method SixInOrder() returns (out: seq<int>, firstCapacity: int, capacity: int)
    ensures out == [1, 2, 3, 4, 5, 6] && firstCapacity == 4 && capacity == 8
  {
    var q := new Dequeue<int>(0);
    q.EnqueueTail(1);
    firstCapacity := q.arr.Length;
    q.EnqueueTail(2);
    q.EnqueueTail(3);
    q.EnqueueTail(4);
    q.EnqueueTail(5);
    assert q.arr.Length == 8;
    q.EnqueueTail(6);
    capacity := q.arr.Length;
    out := DrainFromHead(q);
  }

  /** A state reached by ordinary use on which the source's enumerator is
      wrong: after tail 5, 10, 20 and one head removal the ring starts at
      slot 1, and the as-written enumerator yields [10, 0] where the
      contents are [10, 20]. */
  method EnumeratorScenario() returns (asWritten: seq<int>, inOrder: seq<int>)
    ensures asWritten == [10, 0] && inOrder == [10, 20]
  {
    var q := new Dequeue<int>(0);
    q.EnqueueTail(5);
    q.EnqueueTail(10);
    q.EnqueueTail(20);
    var _ := q.DequeueHead();
    assert q.head == 1 && q.size == 2 && q.arr.Length == 4;
    assert Live(q.arr[..], 1, 2) == [10, 20];
    ghost var a := q.arr[..];
    assert a == [0, 10, 20, 0] by {
      assert a[Slot(1, 0, 4)] == Live(a, 1, 2)[0] == 10;
      assert a[Slot(1, 1, 4)] == Live(a, 1, 2)[1] == 20;
      assert a[Slot(1, 2, 4)] == 0 && a[Slot(1, 3, 4)] == 0;
    }
    EnumeratedAsWrittenMisorders();
    asWritten := q.GetEnumerator();
    inOrder := q.Enumerate();
  }
}

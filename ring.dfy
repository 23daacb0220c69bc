/** The layout of a dequeue's elements in its backing array, stated on plain
    sequences: a ring of capacity |a| whose logical position i lives in slot
    (head + i) mod |a|. The class in dequeue.dfy keeps its array in this
    layout; the lemmas here say how each operation moves it. */
module Ring {

  import opened Arith

  /** Growth never adds fewer than this many slots. */
  const MinimumGrow := 4

  /** The physical slot of logical position i, for a ring starting at head:
      head + i, wrapped once past the end. */
  function Slot(head: int, i: int, cap: int): (j: int)
    requires 0 <= head < cap && 0 <= i <= cap
    ensures 0 <= j < cap
  {
    if head + i < cap then head + i else head + i - cap
  }

  /** The live elements, front to back: `size` slots starting at head. */
  ghost function Live<T>(a: seq<T>, head: int, size: int): (s: seq<T>)
    requires 0 <= size <= |a| && (0 < |a| ==> 0 <= head < |a|)
    ensures |s| == size
  {
    seq(size, i requires 0 <= i < size => a[Slot(head, i, |a|)])
  }

  /** Every slot that holds no live element holds the blank value d: removal
      clears what it vacates, so the array keeps no stale element. */
  ghost predicate Cleared<T>(a: seq<T>, head: int, size: int, d: T)
    requires 0 <= size <= |a| && (0 < |a| ==> 0 <= head < |a|)
  {
    forall i :: size <= i < |a| ==> a[Slot(head, i, |a|)] == d
  }

  /** The index fields of a dequeue of capacity cap: head is the first valid
      slot, tail the first open one (equal to head when full). */
  ghost predicate Layout(cap: int, head: int, tail: int, size: int)
  {
    0 <= size <= cap &&
    (cap == 0 ==> head == 0 && tail == 0) &&
    (cap > 0 ==> 0 <= head < cap && tail == Slot(head, size, cap))
  }

  /** A full ring has head == tail, so Grow's two copies, of capacity - head
      and then tail slots, move exactly size elements. */
  lemma FullRingHeadIsTail(cap: int, head: int, tail: int, size: int)
    requires Layout(cap, head, tail, size) && size == cap
    ensures head == tail && cap - head + tail == size
  {
  }

  /** The capacity Grow moves to: double the old one, but at least MinimumGrow more. */
  function GrowCapacity(len: int): (cap: int)
    ensures cap >= 2 * len && cap >= len + MinimumGrow
    ensures cap == 2 * len || cap == len + MinimumGrow
    ensures len >= 0 ==> cap > len && cap >= MinimumGrow
  {
    var doubled := len * 2;
    if doubled < len + MinimumGrow then len + MinimumGrow else doubled
  }

  /** Slot is the ring formula (head + i) mod cap. */
  lemma SlotIsMod(head: int, i: int, cap: int)
    requires 0 <= head < cap && 0 <= i <= cap
    ensures Slot(head, i, cap) == (head + i) % cap
  {
    if head + i >= cap {
      ModUnique(head + i, cap, 1, head + i - cap);
    }
  }

  /** Stepping a slot by `(pos + 1) % cap` moves to the next logical position. */
  lemma SlotSucc(head: int, i: int, cap: int)
    requires 0 <= head < cap && 0 <= i < cap
    ensures (Slot(head, i, cap) + 1) % cap == Slot(head, i + 1, cap)
  {
    var j := Slot(head, i, cap) + 1;
    if j == cap {
      ModUnique(j, cap, 1, 0);
    } else {
      ModUnique(j, cap, 0, j);
    }
  }

  /** EnqueueTail's step: writing x into the tail slot appends x, and the
      slots beyond the new tail are still blank. */
  lemma LivePushBack<T>(a: seq<T>, head: int, size: int, x: T, d: T)
    requires 0 <= size < |a| && 0 <= head < |a|
    requires Cleared(a, head, size, d)
    ensures Live(a[Slot(head, size, |a|) := x], head, size + 1) == Live(a, head, size) + [x]
    ensures Cleared(a[Slot(head, size, |a|) := x], head, size + 1, d)
  {
    var t := Slot(head, size, |a|);
    var b := a[t := x];
    forall i | 0 <= i < |a| && i != size
      ensures b[Slot(head, i, |a|)] == a[Slot(head, i, |a|)]
    {
    }
    assert Live(b, head, size + 1) == Live(a, head, size) + [x];
  }

  /** EnqueueHead's step: moving head back one slot (wrapping from 0 to the
      end) and writing x there prepends x; the tail slot does not move. */
  lemma LivePushFront<T>(a: seq<T>, head: int, size: int, x: T, d: T)
    requires 0 <= size < |a| && 0 <= head < |a|
    requires Cleared(a, head, size, d)
    ensures var h := (if head == 0 then |a| else head) - 1;
      0 <= h < |a| &&
      Slot(h, size + 1, |a|) == Slot(head, size, |a|) &&
      Live(a[h := x], h, size + 1) == [x] + Live(a, head, size) &&
      Cleared(a[h := x], h, size + 1, d)
  {
    var h := (if head == 0 then |a| else head) - 1;
    var b := a[h := x];
    forall i | 0 <= i < |a| - 1
      ensures Slot(h, i + 1, |a|) == Slot(head, i, |a|)
      ensures b[Slot(h, i + 1, |a|)] == a[Slot(head, i, |a|)]
    {
    }
    forall i | size + 1 <= i < |a|
      ensures b[Slot(h, i, |a|)] == d
    {
      assert b[Slot(h, (i - 1) + 1, |a|)] == a[Slot(head, i - 1, |a|)];
    }
    assert Live(b, h, size + 1) == [x] + Live(a, head, size);
  }

  /** DequeueHead's step: the front is the head slot; clearing it and moving
      head forward one slot (wrapping at the end) drops the front. */
  lemma LivePopFront<T>(a: seq<T>, head: int, size: int, d: T)
    requires 0 < size <= |a| && 0 <= head < |a|
    requires Cleared(a, head, size, d)
    ensures Live(a, head, size)[0] == a[head]
    ensures var h := if head + 1 == |a| then 0 else head + 1;
      Slot(h, size - 1, |a|) == Slot(head, size, |a|) &&
      Live(a[head := d], h, size - 1) == Live(a, head, size)[1..] &&
      Cleared(a[head := d], h, size - 1, d)
  {
    var h := if head + 1 == |a| then 0 else head + 1;
    var b := a[head := d];
    forall i | 0 <= i < |a| - 1
      ensures Slot(h, i, |a|) == Slot(head, i + 1, |a|)
      ensures b[Slot(h, i, |a|)] == a[Slot(head, i + 1, |a|)]
    {
    }
    assert Slot(h, |a| - 1, |a|) == head;
    assert Live(b, h, size - 1) == Live(a, head, size)[1..];
  }

  /** DequeueTail's step: moving tail back one slot (wrapping from -1 to the
      end) reaches the back element; clearing it drops the back. */
  lemma LivePopBack<T>(a: seq<T>, head: int, size: int, d: T)
    requires 0 < size <= |a| && 0 <= head < |a|
    requires Cleared(a, head, size, d)
    ensures var t := Slot(head, size, |a|) - 1;
      var t' := if t == -1 then |a| - 1 else t;
      t' == Slot(head, size - 1, |a|) &&
      Live(a, head, size)[size - 1] == a[t'] &&
      Live(a[t' := d], head, size - 1) == Live(a, head, size)[..size - 1] &&
      Cleared(a[t' := d], head, size - 1, d)
  {
    var t := Slot(head, size, |a|) - 1;
    var t' := if t == -1 then |a| - 1 else t;
    assert t' == Slot(head, size - 1, |a|);
    var b := a[t' := d];
    forall i | 0 <= i < |a| && i != size - 1
      ensures b[Slot(head, i, |a|)] == a[Slot(head, i, |a|)]
    {
    }
    assert Live(b, head, size - 1) == Live(a, head, size)[..size - 1];
  }

  /** Grow's relocation: when b begins with the first n slots of the ring in
      logical order, for some n at least the size, and is blank after them,
      then b holds the same elements starting at slot 0 and is cleared. */
  lemma Relocated<T>(a: seq<T>, head: int, size: int, b: seq<T>, n: int, d: T)
    requires 0 <= size <= n <= |a| < |b| && (0 < |a| ==> 0 <= head < |a|)
    requires Cleared(a, head, size, d)
    requires forall k :: 0 <= k < n ==> b[k] == a[Slot(head, k, |a|)]
    requires forall k :: n <= k < |b| ==> b[k] == d
    ensures Live(b, 0, size) == Live(a, head, size)
    ensures Cleared(b, 0, size, d)
  {
    forall k | size <= k < |b|
      ensures b[Slot(0, k, |b|)] == d
    {
      assert Slot(0, k, |b|) == k;
      if k < n {
        assert b[k] == a[Slot(head, k, |a|)];
      }
    }
    assert Live(b, 0, size) == Live(a, head, size);
  }

  /** Where the source's diagnostic enumerator reads its k-th item: it
      starts at head and steps `pos = (pos + 1) % size`, so after the first
      item the cursor is (head + k) mod size, not mod the capacity. */
  function AsWrittenCursor(head: int, size: int, k: int): (pos: int)
    requires 0 <= head && 0 <= k < size
    ensures 0 <= pos && (0 < k ==> pos < size)
  {
    if k == 0 then head else (head + k) % size
  }

  /** One step of the source's cursor update reaches the next cursor. */
  lemma AsWrittenCursorStep(head: int, size: int, k: int)
    requires 0 <= head && 0 <= k && k + 1 < size
    ensures (AsWrittenCursor(head, size, k) + 1) % size == AsWrittenCursor(head, size, k + 1)
  {
    if 0 < k {
      ModSucc(head + k, size);
    }
  }

  /** The items the source's diagnostic enumerator yields. */
  ghost function EnumeratedAsWritten<T>(a: seq<T>, head: int, size: int): (s: seq<T>)
    requires 0 <= size <= |a| && (0 < size ==> 0 <= head < |a|)
    ensures |s| == size
  {
    seq(size, k requires 0 <= k < size => a[AsWrittenCursor(head, size, k)])
  }

  /** The as-written enumeration grows one item at a time, read at the cursor. */
  lemma EnumeratedAsWrittenPrefix<T>(a: seq<T>, head: int, size: int, k: int)
    requires 0 <= size <= |a| && 0 <= head < |a| && 0 <= k < size
    ensures AsWrittenCursor(head, size, k) < |a|
    ensures EnumeratedAsWritten(a, head, size)[..k + 1]
      == EnumeratedAsWritten(a, head, size)[..k] + [a[AsWrittenCursor(head, size, k)]]
  {
    var e := EnumeratedAsWritten(a, head, size);
    assert e[..k + 1] == e[..k] + [e[k]];
  }

  /** The as-written enumeration is the logical order when the ring starts
      at slot 0 or fills the whole array. */
  lemma EnumeratedAsWrittenWhenAligned<T>(a: seq<T>, head: int, size: int)
    requires 0 <= size <= |a| && (0 < |a| ==> 0 <= head < |a|)
    requires head == 0 || size == |a|
    ensures EnumeratedAsWritten(a, head, size) == Live(a, head, size)
  {
    forall k | 0 < k < size
      ensures a[AsWrittenCursor(head, size, k)] == a[Slot(head, k, |a|)]
    {
      if head == 0 {
        ModUnique(k, size, 0, k);
      } else {
        SlotIsMod(head, k, |a|);
      }
    }
    assert EnumeratedAsWritten(a, head, size) == Live(a, head, size);
  }

  /** A reachable ring on which the as-written enumeration is wrong: capacity
      4, head 1, elements [10, 20]; it yields [10, 0], re-reading a blank slot
      and missing 20. */
  lemma EnumeratedAsWrittenMisorders()
    ensures Layout(4, 1, 3, 2) && Cleared([0, 10, 20, 0], 1, 2, 0)
    ensures Live([0, 10, 20, 0], 1, 2) == [10, 20]
    ensures EnumeratedAsWritten([0, 10, 20, 0], 1, 2) == [10, 0]
  {
    var a := [0, 10, 20, 0];
    ModUnique(2, 2, 1, 0);
    assert AsWrittenCursor(1, 2, 1) == 0;
    assert EnumeratedAsWritten(a, 1, 2)[1] == a[0];
    assert EnumeratedAsWritten(a, 1, 2) == [10, 0];
    assert Live(a, 1, 2) == [10, 20];
  }
}

/** The array-backed double-ended queue: a ring buffer that grows on demand. */
module Collections {

  import opened Ring

  /** Copies `length` elements of src, starting at srcIndex, into dst starting
      at dstIndex, and leaves the rest of dst alone (Array.Copy on two
      distinct arrays). */
  method ArrayCopy<T>(src: array<T>, srcIndex: int, dst: array<T>, dstIndex: int, length: int)
    requires src != dst
    requires 0 <= length && 0 <= srcIndex && srcIndex + length <= src.Length
    requires 0 <= dstIndex && dstIndex + length <= dst.Length
    modifies dst
    ensures forall j :: dstIndex <= j < dstIndex + length ==> dst[j] == src[srcIndex + (j - dstIndex)]
    ensures forall j :: 0 <= j < dst.Length && !(dstIndex <= j < dstIndex + length) ==> dst[j] == old(dst[j])
  {
    var i := 0;
    while i < length
      invariant 0 <= i <= length
      invariant forall j :: dstIndex <= j < dstIndex + i ==> dst[j] == src[srcIndex + (j - dstIndex)]
      invariant forall j :: 0 <= j < dst.Length && !(dstIndex <= j < dstIndex + i) ==> dst[j] == old(dst[j])
    {
      dst[dstIndex + i] := src[srcIndex + i];
      i := i + 1;
    }
  }

  /** Grow's allocation and copy: a fresh array of the given capacity, filled
      with dflt, into which the ring of src is copied in logical order from
      slot 0, by one copy when it does not wrap and by two when it does. */
  method CopyRing<T>(src: array<T>, head: int, tail: int, size: int, capacity: int, dflt: T)
    returns (dst: array<T>)
    requires Layout(src.Length, head, tail, size) && Cleared(src[..], head, size, dflt)
    requires src.Length < capacity
    ensures fresh(dst) && dst.Length == capacity
    ensures Live(dst[..], 0, size) == Live(src[..], head, size)
    ensures Cleared(dst[..], 0, size, dflt)
  {
    dst := new T[capacity](_ => dflt);
    ghost var n;
    if head < tail {
      ArrayCopy(src, head, dst, 0, size);
      n := size;
      assert forall k :: 0 <= k < n ==> dst[k] == src[Slot(head, k, src.Length)];
    } else {
      if size == src.Length {
        FullRingHeadIsTail(src.Length, head, tail, size);
      }
      ArrayCopy(src, head, dst, 0, src.Length - head);
      ArrayCopy(src, 0, dst, src.Length - head, tail);
      n := src.Length - head + tail;
      assert forall k :: 0 <= k < n ==> dst[k] == src[Slot(head, k, src.Length)] by {
        forall k | 0 <= k < n
          ensures dst[k] == src[Slot(head, k, src.Length)]
        {
          if k >= src.Length - head {
            assert Slot(head, k, src.Length) == k - (src.Length - head);
          }
        }
      }
    }
    Relocated(src[..], head, size, dst[..], n, dflt);
  }

  /** A double-ended queue of T. Contents is its abstract value, front first;
      Default stands for default(T), the value a fresh array slot holds and
      the value a removal writes into the slot it vacates. */
  class Dequeue<T> {
    ghost var Contents: seq<T>
    ghost var Repr: set<object>

    const Default: T
    var arr: array<T>
    var head: int  // first valid element
    var tail: int  // first open slot, unless the dequeue is full
    var size: int  // number of elements

    /** The representation invariant: the indices are a ring layout over arr,
        the live slots hold Contents in order, and every other slot is blank. */
    ghost predicate Valid()
      reads this, Repr
    {
      Repr == {this, arr} &&
      Layout(arr.Length, head, tail, size) &&
      Contents == Live(arr[..], head, size) &&
      Cleared(arr[..], head, size, Default)
    }

    /** A new, empty dequeue over a zero-length array. */
    constructor (dflt: T)
      ensures Valid() && fresh(Repr)
      ensures Contents == [] && Default == dflt
      ensures arr.Length == 0 && head == 0 && tail == 0 && size == 0
    {
      Default := dflt;
      arr := new T[0](_ => dflt);
      head, tail, size := 0, 0, 0;
      Contents := [];
      Repr := {this, arr};
    }

    /** The number of elements. */
    function Count(): (n: int)
      reads this, Repr
      requires Valid()
      ensures n == |Contents|
    {
      size
    }

    /** Appends item at the back, growing first when the array is full. */
    method EnqueueTail(item: T)
      requires Valid()
      modifies Repr
      ensures Valid() && fresh(Repr - old(Repr))
      ensures Contents == old(Contents) + [item]
      ensures size == old(size) + 1
      ensures old(size) < old(arr.Length) ==> arr == old(arr) && head == old(head)
      ensures old(size) == old(arr.Length) ==>
        fresh(arr) && arr.Length == GrowCapacity(old(arr.Length)) && head == 0
    {
      if size == arr.Length {
        Grow();
      }
      LivePushBack(arr[..], head, size, item, Default);
      arr[tail] := item;
      tail := tail + 1;
      if tail == arr.Length {
        tail := 0;
      }
      size := size + 1;
      Contents := Contents + [item];
    }

    /** Prepends item at the front, growing first when the array is full;
        head steps back one slot, wrapping from 0 to the last slot. */
    method EnqueueHead(item: T)
      requires Valid()
      modifies Repr
      ensures Valid() && fresh(Repr - old(Repr))
      ensures Contents == [item] + old(Contents)
      ensures size == old(size) + 1
      ensures old(size) < old(arr.Length) ==>
        arr == old(arr) && head == (if old(head) == 0 then arr.Length else old(head)) - 1
      ensures old(size) == old(arr.Length) ==>
        fresh(arr) && arr.Length == GrowCapacity(old(arr.Length)) && head == arr.Length - 1
    {
      if size == arr.Length {
        Grow();
      }
      LivePushFront(arr[..], head, size, item, Default);
      head := (if head == 0 then arr.Length else head) - 1;
      arr[head] := item;
      size := size + 1;
      Contents := [item] + Contents;
    }

    /** Removes and returns the front element, blanking its slot; head steps
        forward one slot, wrapping at the end. */
    method DequeueHead() returns (item: T)
      requires Valid()
      requires size > 0
      modifies Repr
      ensures Valid() && Repr == old(Repr) && arr == old(arr)
      ensures item == old(Contents)[0] && Contents == old(Contents)[1..]
      ensures size == old(size) - 1
      ensures arr[old(head)] == Default
      ensures head == if old(head) + 1 == arr.Length then 0 else old(head) + 1
    {
      LivePopFront(arr[..], head, size, Default);
      item := arr[head];
      arr[head] := Default;
      head := head + 1;
      if head == arr.Length {
        head := 0;
      }
      size := size - 1;
      Contents := Contents[1..];
    }

    /** Removes and returns the back element, blanking its slot; tail steps
        back one slot, wrapping from -1 to the last slot. */
    method DequeueTail() returns (item: T)
      requires Valid()
      requires size > 0
      modifies Repr
      ensures Valid() && Repr == old(Repr) && arr == old(arr) && head == old(head)
      ensures item == old(Contents)[|old(Contents)| - 1]
      ensures Contents == old(Contents)[..|old(Contents)| - 1]
      ensures size == old(size) - 1
      ensures arr[tail] == Default
      ensures tail == if old(tail) == 0 then arr.Length - 1 else old(tail) - 1
    {
      LivePopBack(arr[..], head, size, Default);
      tail := tail - 1;
      if tail == -1 {
        tail := arr.Length - 1;
      }
      item := arr[tail];
      arr[tail] := Default;
      size := size - 1;
      Contents := Contents[..|Contents| - 1];
    }

    /** The diagnostic enumerator as written: it starts at head and steps the
        cursor modulo the element count, so its result is the contents only
        in the cases EnumeratedAsWrittenWhenAligned names. */
    method GetEnumerator() returns (items: seq<T>)
      requires Valid()
      ensures items == EnumeratedAsWritten(arr[..], head, size)
      ensures head == 0 || size == arr.Length ==> items == Contents
    {
      ghost var expected := EnumeratedAsWritten(arr[..], head, size);
      var pos := head;
      var count := size;
      items := [];
      while count > 0
        invariant 0 <= count <= size
        invariant items == expected[..size - count]
        invariant count > 0 ==> pos == AsWrittenCursor(head, size, size - count) && pos < arr.Length
      {
        ghost var k := size - count;
        EnumeratedAsWrittenPrefix(arr[..], head, size, k);
        count := count - 1;
        items := items + [arr[pos]];
        if count > 0 {
          AsWrittenCursorStep(head, size, k);
        }
        pos := (pos + 1) % size;
      }
      assert items == expected;
      if head == 0 || size == arr.Length {
        EnumeratedAsWrittenWhenAligned(arr[..], head, size);
      }
    }

    /** The enumerator with the cursor stepped modulo the capacity: it yields
        exactly the contents, front to back. */
    method Enumerate() returns (items: seq<T>)
      requires Valid()
      ensures items == Contents
    {
      var pos := head;
      var count := size;
      items := [];
      while count > 0
        invariant 0 <= count <= size
        invariant items == Contents[..size - count]
        invariant arr.Length > 0 ==> pos == Slot(head, size - count, arr.Length)
      {
        ghost var k := size - count;
        assert Contents[k] == arr[pos];
        assert Contents[..k + 1] == Contents[..k] + [arr[pos]];
        SlotSucc(head, k, arr.Length);
        count := count - 1;
        items := items + [arr[pos]];
        pos := (pos + 1) % arr.Length;
      }
    }

    /** Moves the elements, in order, to the front of a fresh array of
        capacity GrowCapacity(old capacity); nothing observable changes. */
    method Grow()
      requires Valid()
      modifies Repr
      ensures Valid() && fresh(Repr - old(Repr))
      ensures fresh(arr) && arr.Length == GrowCapacity(old(arr.Length))
      ensures Contents == old(Contents) && size == old(size)
      ensures head == 0 && tail == size && size < arr.Length
    {
      var capacity := arr.Length * 2;
      if capacity < arr.Length + MinimumGrow {
        capacity := arr.Length + MinimumGrow;
      }
      var newArray := CopyRing(arr, head, tail, size, capacity, Default);
      arr := newArray;
      head := 0;
      tail := if size == capacity then 0 else size;
      Repr := {this, arr};
    }
  }
}

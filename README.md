# Dequeue: a verified model of the array-backed double-ended queue

This project models `Dequeue<T>` from the channels library
(`System.Collections.Generic.Dequeue<T>`) and proves properties about it.
`Dequeue<T>` is a double-ended queue stored in a ring buffer. It has four
fields:

- `_array`, the backing store;
- `_head`, the first valid slot;
- `_tail`, the first open slot, or `_head` again when the queue is full;
- `_size`, the element count.

Items can be added at either end. Items can be removed from either end, and
each removal writes `default(T)` into the slot it frees. When an insertion
finds the array full, the queue first grows. Growing allocates a larger
array and copies the ring into it starting at index 0.

The model has four parts:

- `ring.dfy` (module `Ring`) describes the layout on plain sequences.
  `Slot(head, i, cap)` is the slot holding logical position `i`, which is
  `(head + i) mod cap`. `Live` is the list of elements from front to back.
  `Cleared` says every slot that holds no element holds the blank value.
  `Layout` is the invariant on the index fields. One lemma per operation
  shows how that operation changes `Live` and keeps `Cleared`.
- `dequeue.dfy` (module `Collections`) holds the class `Dequeue<T>`. Its
  fields are the source's fields: `arr`, `head`, `tail`, `size`. It adds a
  ghost `Contents: seq<T>` and uses `Valid()` to tie that to the array.
  Each method states its effect on `Contents` and on the indices. For
  example, `EnqueueTail` appends, `DequeueHead` pops the front, and `Grow`
  leaves `Contents` unchanged.
- `scenarios.dfy` (module `DequeueScenarios`) holds client methods. They
  prove the queue's promised behaviours from the method contracts alone:
  FIFO and LIFO round trips, head push-then-pop symmetry, agreement with a
  reference deque on sequences, and two concrete runs.
- `arith.dfy` (module `Arith`) holds small facts about remainders that the
  proofs of the enumerators need.

`default(T)` is the constructor parameter `dflt`, stored in the constant
field `Default`. A new array is filled with it, matching what C# does when
it allocates an array. Because of this the invariant can require every slot
outside the live range to be blank. That is what the source's clearing
writes guarantee.

Three behaviours of the source that a reader might not expect:

- Removing from an empty dequeue is the caller's error.
  `Dequeue.cs:50` and `Dequeue.cs:66` check it only with `Debug.Assert`, and
  the source has no error return, so both removals require a non-empty
  dequeue.
- The diagnostic enumerator steps its cursor modulo the element count
  (`Dequeue.cs:87`). This is modelled as written; see Findings.
- Six tail insertions into a new dequeue grow it twice, 0→4 and 4→8.

## Model

| member | source | states |
|---|---|---|
| `Ring.SlotIsMod` | src/System.Threading.Tasks.Channels/System/Collections/Generic/Dequeue.cs:15-16 | the slot holding logical position i is (head + i) mod capacity, the ring formula of the field comments |
| `Ring.FullRingHeadIsTail` | src/System.Threading.Tasks.Channels/System/Collections/Generic/Dequeue.cs:103-111 | in a full ring head == tail, so Grow's two copies (capacity − head slots, then tail slots) move exactly size elements |
| `Ring.GrowCapacity` | src/System.Threading.Tasks.Channels/System/Collections/Generic/Dequeue.cs:93-99 | the new capacity is max(2·len, len + 4); it is larger than len and at least 4, so an empty array grows to 4 |
| `Ring.LivePushBack` | src/System.Threading.Tasks.Channels/System/Collections/Generic/Dequeue.cs:28-33 | writing x into the tail slot makes the contents old + [x] and leaves every slot past the new tail blank |
| `Ring.LivePushFront` | src/System.Threading.Tasks.Channels/System/Collections/Generic/Dequeue.cs:43-45 | head − 1 (wrapping 0 to the last slot) stays in bounds; writing x there makes the contents [x] + old, keeps the tail slot, keeps the rest blank |
| `Ring.LivePopFront` | src/System.Threading.Tasks.Channels/System/Collections/Generic/Dequeue.cs:52-59 | the front element is at head; blanking it and stepping head forward (wrapping at the end) leaves old[1..] and a cleared array |
| `Ring.LivePopBack` | src/System.Threading.Tasks.Channels/System/Collections/Generic/Dequeue.cs:68-76 | tail − 1 (wrapping −1 to the last slot) is the back element's slot; blanking it leaves old[..n−1] and a cleared array |
| `Ring.Relocated` | src/System.Threading.Tasks.Channels/System/Collections/Generic/Dequeue.cs:101-115 | a new array that starts with at least size ring slots in logical order, and is blank after them, holds the same contents starting at slot 0 and is cleared |
| `Ring.SlotSucc` | src/System.Threading.Tasks.Channels/System/Collections/Generic/Dequeue.cs:87 | stepping a slot by (pos + 1) mod capacity reaches the next logical position |
| `Ring.AsWrittenCursorStep` | src/System.Threading.Tasks.Channels/System/Collections/Generic/Dequeue.cs:82-88 | the enumerator's update pos = (pos + 1) mod size moves from its k-th read position to its (k+1)-th |
| `Ring.EnumeratedAsWrittenWhenAligned` | src/System.Threading.Tasks.Channels/System/Collections/Generic/Dequeue.cs:80-89 | the as-written enumeration equals the contents when head == 0 or the array is full |
| `Ring.EnumeratedAsWrittenMisorders` | src/System.Threading.Tasks.Channels/System/Collections/Generic/Dequeue.cs:80-89 | on a valid, cleared ring (capacity 4, head 1, contents [10, 20]) the as-written enumeration is [10, 0] |
| `Collections.ArrayCopy` | src/System.Threading.Tasks.Channels/System/Collections/Generic/Dequeue.cs:105-110 | copies the given range of one array into another at the given offset, and leaves every other slot of the target unchanged |
| `Collections.CopyRing` | src/System.Threading.Tasks.Channels/System/Collections/Generic/Dequeue.cs:101-111 | the fresh array of the new capacity holds the old contents in order from slot 0 and is blank elsewhere, whether the ring wrapped (two copies) or not (one copy) |
| `Collections.Dequeue.constructor` | src/System.Threading.Tasks.Channels/System/Collections/Generic/Dequeue.cs:14-17 | a new dequeue is valid and empty, over a zero-length array, with head = tail = size = 0 |
| `Collections.Dequeue.Count` | src/System.Threading.Tasks.Channels/System/Collections/Generic/Dequeue.cs:19 | the count is the length of the abstract contents |
| `Collections.Dequeue.EnqueueTail` | src/System.Threading.Tasks.Channels/System/Collections/Generic/Dequeue.cs:21-34 | contents become old + [item] and the size grows by 1; the array is kept when it had room, or replaced by a fresh one of GrowCapacity slots when it was full |
| `Collections.Dequeue.EnqueueHead` | src/System.Threading.Tasks.Channels/System/Collections/Generic/Dequeue.cs:36-46 | contents become [item] + old and the size grows by 1; head moves back one slot with wrap-around, or to the last slot of the grown array |
| `Collections.Dequeue.DequeueHead` | src/System.Threading.Tasks.Channels/System/Collections/Generic/Dequeue.cs:48-62 | needs a non-empty dequeue; returns old[0], leaves old[1..], blanks the old head slot, and advances head with wrap-around |
| `Collections.Dequeue.DequeueTail` | src/System.Threading.Tasks.Channels/System/Collections/Generic/Dequeue.cs:64-78 | needs a non-empty dequeue; returns the last element, leaves old[..n−1], moves tail back one slot (−1 wraps to the last slot), and blanks the new tail slot |
| `Collections.Dequeue.GetEnumerator` | src/System.Threading.Tasks.Channels/System/Collections/Generic/Dequeue.cs:80-89 | changes nothing; yields exactly size items, read where the modulo-size cursor points; these are the contents when head == 0 or the array is full |
| `Collections.Dequeue.Enumerate` | src/System.Threading.Tasks.Channels/System/Collections/Generic/Dequeue.cs:80-89 | with the cursor stepped modulo the capacity, changes nothing and yields exactly the contents, front to back |
| `Collections.Dequeue.Grow` | src/System.Threading.Tasks.Channels/System/Collections/Generic/Dequeue.cs:91-116 | contents and size are unchanged; the array is fresh, with GrowCapacity(old length) slots; head == 0, tail == size, and a free slot remains |
| `DequeueScenarios.Perform` | src/System.Threading.Tasks.Channels/System/Collections/Generic/Dequeue.cs:21-78 | each operation changes the contents as the reference deque on sequences does; a removal is skipped exactly when the dequeue is empty |
| `DequeueScenarios.Replay` | src/System.Threading.Tasks.Channels/System/Collections/Generic/Dequeue.cs:19-78 | any sequence of operations leaves the dequeue holding what a reference deque on sequences holds; the removals it makes are exactly the reference's removals from a non-empty deque (Removals), and the count is insertions minus those |
| `DequeueScenarios.RunLength` | src/System.Threading.Tasks.Channels/System/Collections/Generic/Dequeue.cs:19-78 | for the reference deque, the final length plus the removals that found an element equals the starting length plus the insertions |
| `DequeueScenarios.FillAtTail` | src/System.Threading.Tasks.Channels/System/Collections/Generic/Dequeue.cs:21-34 | tail insertions of xs into a new dequeue leave its contents equal to xs |
| `DequeueScenarios.DrainFromHead` | src/System.Threading.Tasks.Channels/System/Collections/Generic/Dequeue.cs:48-62 | removing from the head until empty returns the contents front first |
| `DequeueScenarios.DrainFromTail` | src/System.Threading.Tasks.Channels/System/Collections/Generic/Dequeue.cs:64-78 | removing from the tail until empty returns the contents back first |
| `DequeueScenarios.FifoRoundTrip` | src/System.Threading.Tasks.Channels/System/Collections/Generic/Dequeue.cs:21-62 | enqueueing xs at the tail and dequeueing everything from the head yields xs, across any number of growths |
| `DequeueScenarios.LifoRoundTrip` | src/System.Threading.Tasks.Channels/System/Collections/Generic/Dequeue.cs:21-78 | enqueueing xs at the tail and dequeueing everything from the tail yields xs reversed |
| `DequeueScenarios.HeadSymmetry` | src/System.Threading.Tasks.Channels/System/Collections/Generic/Dequeue.cs:36-62 | from any valid state, EnqueueHead(x) then DequeueHead() returns x and restores the contents and count |
| `DequeueScenarios.MixedEnds` | src/System.Threading.Tasks.Channels/System/Collections/Generic/Dequeue.cs:21-78 | tail 1, tail 2, head 0 gives count 3; then head, head, tail removals return 0, 1, 2 and leave count 0 |
| `DequeueScenarios.SixInOrder` | src/System.Threading.Tasks.Channels/System/Collections/Generic/Dequeue.cs:21-34 | six tail insertions leave capacity 4 after the first and 8 at the end, and come out of the head as 1..6 |
| `DequeueScenarios.EnumeratorScenario` | src/System.Threading.Tasks.Channels/System/Collections/Generic/Dequeue.cs:80-89 | after tail 5, 10, 20 and one head removal, the as-written enumerator yields [10, 0] and the corrected one yields [10, 20] |

## Findings

| source | as written | input that shows it | evidently intended | confidence | as-written member | corrected member |
|---|---|---|---|---|---|---|
| src/System.Threading.Tasks.Channels/System/Collections/Generic/Dequeue.cs:87 | the enumerator steps `pos = (pos + 1) % _size` | new dequeue; EnqueueTail 5, 10, 20; DequeueHead. Capacity is 4, head 1, contents [10, 20]. The enumerator reads slot 1, then slot (1 + 1) % 2 = 0, yielding [10, 0] | step modulo `_array.Length`, which yields [10, 20] | not executed; the method is marked as meant for debugging only | `Collections.Dequeue.GetEnumerator` (with `Ring.EnumeratedAsWrittenMisorders`, `DequeueScenarios.EnumeratorScenario`) | `Collections.Dequeue.Enumerate` |

## Left out

- tests/System.Text.Http.Tests/HttpParsingData.cs is not part of this model. It holds literal test data for an HTTP parser whose code is not among these files, so there is nothing in it to verify.
- Collections.Dequeue.DequeueHead and Collections.Dequeue.DequeueTail require a non-empty dequeue. The source leaves this to the caller and checks it only with a debug assertion. What a release build does on an empty dequeue is not modelled: it either indexes out of range or drives the size negative.
- Collections.Dequeue.Grow and Ring.GrowCapacity use unbounded integers. The 32-bit truncation of `(int)(_array.Length * 2L)` is not modelled. For arrays of 2^30 elements or more the doubled length wraps to a negative `int` (exactly 2^30 gives `int.MinValue`), so the test at `Dequeue.cs:96` succeeds and the source grows by only 4 slots, to `_array.Length + 4`, instead of doubling. Allocation failure is not modelled either.
- Collections.ArrayCopy stands in for `Array.Copy` and requires two distinct arrays. The overlapping copy that `Array.Copy` also supports is never used here. `Array.Empty<T>()` is a fresh zero-length array.
- `default(T)` is the constructor's parameter, kept in the field `Default`. The model does not compute it from the type.
- Collections.Dequeue.GetEnumerator returns the whole sequence at once. The lazy `yield`/`IEnumerator` machinery and `[DebuggerDisplay]` are not modelled.
- Thread safety is not modelled. The class is unsynchronized and has a single owner.

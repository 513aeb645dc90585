# CircularQueue in Dafny

A model of `CircularQueue<T, Capacity>`: a fixed-capacity ring buffer that lays
a FIFO queue over an array of `Capacity` slots. Three fields describe the
queue. `head` is the slot of the oldest element. `tail` is the slot the next
`push` writes. `full` tells the full queue from the empty one, since both have
`head == tail`. `push` on a full queue overwrites the oldest element. `pop` and
`front` fail on an empty queue. A forward iterator walks the elements from
oldest to newest, and two iterators are equal when they have passed the same
number of elements.

Files:

- `queue_spec.dfy`, module `QueueSpec`: the abstract behaviour on sequences.
  `Pushed` is one push with eviction. `PushAll` is a run of pushes. The lemmas
  prove that any run of pushes leaves exactly the newest `Capacity` values, in
  the order pushed.
- `ring.dfy`, module `Ring`: the index arithmetic on the field values.
  `RingInv` says when `buffer`, `head`, `tail` and `full` represent a given
  contents. One lemma per mutating operation proves that the operation's field
  updates move that representation as intended.
- `circular_queue.dfy`, module `CircularQueue`: the class `Queue<T>` with the
  source's fields, a ghost `Contents` and the object invariant `Valid()`. It
  holds the queries as functions, `push`, `pop` and assignment through `front`
  as methods, the iterator as a value `Iterator(pos, count)`, and the range-for
  traversal as the method `Elements`.
- `driver.dfy`, module `Driver`: the demonstration program's sequence of calls,
  with the values it observes stated as postconditions.

Modelling decisions:

- The template parameter `Capacity` is the constant field `N` of type
  `Positive`. That type stands for the `static_assert(Capacity > 0)`.
- Dafny arrays need an initial value, so the constructor takes one (`init`).
- `std::runtime_error` on an empty queue becomes a `Failure(QueueEmpty)` or
  `Fail(QueueEmpty)` result. The state is left unchanged in that case.
- The source writes `(i + 1) % Capacity`. `NextSlot` computes exactly that,
  and its contract proves it equals `Wrap(i + 1)`, the subtraction form used
  in the proofs. Indices stay below `Capacity`, so `std::size_t` never
  overflows here and no wrap-around of the integer type is modelled.
- The iterator is a value holding `pos` and `count`. Its queue pointer is
  implicit: every iterator member belongs to the queue it is called on.
  Prefix `operator++` is `Advance`. Postfix `operator++(int)` yields the cursor
  before the step, which is `it` itself, together with `Advance(it)`.
  `operator!=` is `!Equal(a, b)`, which is how `Elements` loops.
- `head` stays a valid slot index even when the queue is empty
  (CircularQueue.hpp:15, 67). Dereferencing reads `buffer[pos]` for any slot
  (CircularQueue.hpp:103-105). Past the last live element that slot holds no
  live element, so `Deref` states the element only for a cursor short of the
  end.

## Model

| member | source | states |
|---|---|---|
| `QueueSpec.Pushed` | CircularQueue.hpp:47-59 | one push grows the contents by one until the capacity is reached and then keeps its length; the newest element is the pushed one |
| `QueueSpec.PushedKeepsNewest` | CircularQueue.hpp:47-59 | a push leaves the newest `Capacity` elements of the old contents followed by the pushed value (overwrite-oldest policy) |
| `QueueSpec.PushAll` | CircularQueue.hpp:49-60 | a run of pushes never holds more than `Capacity` elements |
| `QueueSpec.PushAllKeepsNewest` | CircularQueue.hpp:47-59 | any run of pushes onto any contents leaves exactly the newest `Capacity` of all values, oldest first |
| `QueueSpec.FifoThenOverwrite` | CircularQueue.hpp:47-59 | from empty, up to `Capacity` pushes come out in push order; more leave only the last `Capacity`; the queue is full exactly when at least `Capacity` were pushed |
| `Ring.NextSlot` | CircularQueue.hpp:51 | the source's `(i + 1) % Capacity` is the next slot with wraparound: `i + 1`, or 0 after the last slot |
| `Ring.WindowAppend` | CircularQueue.hpp:50-51 | writing the slot just past a non-full live window appends the value to the contents and disturbs no live element |
| `Ring.WindowEvict` | CircularQueue.hpp:50-55 | on a full ring, writing slot `head` and moving `head` on drops the oldest element and appends the new one |
| `Ring.WindowDrop` | CircularQueue.hpp:67 | moving `head` one slot on drops exactly the oldest element |
| `Ring.WindowSetFirst` | CircularQueue.hpp:79-83 | writing slot `head` of a non-empty window replaces the oldest element and no other |
| `Ring.EmptyIffIndicesMeet` | CircularQueue.hpp:24-26 | with `full` clear, `head == tail` holds exactly when there are no elements |
| `Ring.CountFromIndices` | CircularQueue.hpp:34-40 | the count computed from `full`, `head` and `tail` across the wrap is the number of live elements |
| `Ring.PushStep` | CircularQueue.hpp:49-60 | push's field updates (write at `tail`, advance `tail`, advance `head` if it was full, else set `full` when `tail` meets `head`) keep the representation, now of the pushed contents |
| `Ring.PopStep` | CircularQueue.hpp:64-69 | pop's updates on a non-empty queue (advance `head`, clear `full`) represent the contents without their oldest element |
| `Ring.SetFrontStep` | CircularQueue.hpp:79-83 | writing `buffer[head]` of a non-empty queue represents the contents with the oldest element replaced |
| `CircularQueue.Queue.constructor` | CircularQueue.hpp:14-20 | a new queue has `head == tail == 0`, `full` false, no elements, `isEmpty()`, not `isFull()`, and `size() == 0` |
| `CircularQueue.Queue.IsEmpty` | CircularQueue.hpp:24-26 | true exactly when the queue holds no elements |
| `CircularQueue.Queue.IsFull` | CircularQueue.hpp:29-31 | true exactly when the queue holds `Capacity` elements |
| `CircularQueue.Queue.Size` | CircularQueue.hpp:34-40 | the number of live elements, at most `Capacity`; equal to `Capacity` exactly when `full`, and 0 exactly when `isEmpty()` |
| `CircularQueue.Queue.Capacity` | CircularQueue.hpp:43-45 | the length of the backing array, positive and never below `size()` |
| `CircularQueue.Queue.Push` | CircularQueue.hpp:49-60 | always succeeds and keeps the invariant; non-full: appends, `head` unchanged; full: evicts the oldest and appends; writes only slot `tail`; `tail` and, when it was full, `head` advance with wraparound |
| `CircularQueue.Queue.Pop` | CircularQueue.hpp:64-69 | on an empty queue fails and changes nothing; otherwise removes exactly the oldest element, leaves `full` false, and advances `head` |
| `CircularQueue.Queue.Front` | CircularQueue.hpp:72-76 | fails exactly on an empty queue; otherwise yields the oldest element; reads only |
| `CircularQueue.Queue.SetFront` | CircularQueue.hpp:79-83 | assignment through the mutable `front()`: fails and changes nothing when empty; otherwise the oldest element becomes `v` in place, and only `buffer[head]` changes |
| `CircularQueue.Queue.Begin` | CircularQueue.hpp:141-143 | `begin()` is the cursor on the oldest element that has passed none |
| `CircularQueue.Queue.End` | CircularQueue.hpp:146-148 | `end()` stands on `tail` and has passed every live element |
| `CircularQueue.Queue.Deref` | CircularQueue.hpp:103-105 | dereferencing a cursor that has passed `k` elements, short of the end, yields the `k`-th oldest element |
| `CircularQueue.Queue.Advance` | CircularQueue.hpp:112-116 | `++` moves one slot on with wraparound and counts one more element; a cursor short of the end stays a cursor of this queue |
| `CircularQueue.Queue.Equal` | CircularQueue.hpp:126-132 | equality compares counts only; for cursors of the same queue that is the same as equal slot and count |
| `CircularQueue.Queue.Iterate` | CircularQueue.hpp:112-116 | `k` increments of any cursor leave it on a valid slot, having passed exactly `k` more elements |
| `CircularQueue.Queue.IterateWalks` | CircularQueue.hpp:112-116 | `k` increments of a cursor of this queue give the cursor that has passed `k` more elements |
| `CircularQueue.Queue.BeginReachesEnd` | CircularQueue.hpp:126-148 | advancing `begin()` `size()` times gives `end()`, and fewer steps never compare equal to it, even when a full queue puts both on the same slot |
| `CircularQueue.Queue.Elements` | CircularQueue.hpp:141-148 | the range-for walk from `begin()` to `end()` visits exactly the contents, oldest to newest |
| `Driver.Scenario` | main.cpp:7-31 | capacity 5: after pushing 1..5 the walk gives [1,2,3,4,5]; after 6 and 7 it gives [3,4,5,6,7]; `front()` is 3; after `pop()` it is 4 |

## Left out

- `iterator::operator->` (CircularQueue.hpp:107-109): it returns a raw pointer into the buffer, and Dafny has no pointers into arrays.
- Aliasing through the references returned by the mutable `front()` and by `operator*`: the only write through them that is modelled is assignment to the front element (`SetFront`). Writes through an iterator's reference are not modelled.
- Comparing iterators of different queues, or using an iterator after the queue changed: the source does not check for these and their outcome is unspecified, so no contract covers them.
- The template and `static_assert` machinery: the capacity is a constructor argument of a positive type instead.
- C++ exceptions as objects: the failure results carry only the kind `QueueEmpty`, not the message text.
- The console output of the demonstration program (main.cpp): the printed values are returned instead.
- Thread safety: the source has none, and the model is sequential.

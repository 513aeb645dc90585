/**
 * A fixed-capacity ring buffer that lays a FIFO queue over an array of `N`
 * slots. `head` is the slot of the oldest element, `tail` the slot the next
 * push writes, and `full` tells the full queue from the empty one, since both
 * have `head == tail`. Pushing onto a full queue overwrites the oldest element.
 */
module CircularQueue {
  import opened QueueSpec
  import opened Ring

  /** The one failure: `pop` or `front` on a queue with no elements. */
  datatype QueueError = QueueEmpty

  /** The outcome of an operation that yields a value or fails. */
  datatype Result<T> = Success(value: T) | Failure(error: QueueError)

  /** The outcome of an operation that yields nothing or fails. */
  datatype Outcome = Pass | Fail(error: QueueError)

  /**
   * A forward cursor over one queue: the slot it stands on and how many
   * elements it has already passed.
   */
  datatype Iterator = Iterator(pos: nat, count: nat)

  class Queue<T> {
    /** The capacity (the template parameter `Capacity`). */
    const N: Positive
    /** The backing store; slots outside the live window hold stale values. */
    const buffer: array<T>
    var head: nat
    var tail: nat
    var full: bool

    /** The live elements, oldest first. */
    ghost var Contents: seq<T>

    /** The object invariant: the fields represent `Contents`. */
    ghost predicate Valid()
      reads this, buffer
    {
      RingInv(buffer[..], N, head, tail, full, Contents)
    }

    /** Creates an empty queue; every slot starts as `init`. */
    constructor (capacity: Positive, init: T)
      ensures Valid() && fresh(buffer)
      ensures N == capacity && Contents == []
      ensures head == 0 && tail == 0 && !full
      ensures IsEmpty() && !IsFull() && Size() == 0
    {
      N := capacity;
      buffer := new T[capacity](_ => init);
      head, tail, full := 0, 0, false;
      Contents := [];
    }

    function IsEmpty(): (r: bool)
      reads this, buffer
      requires Valid()
      ensures r <==> Contents == []
    {
      EmptyIffIndicesMeet(buffer[..], N, head, tail, full, Contents);
      !full && head == tail
    }

    function IsFull(): (r: bool)
      reads this, buffer
      requires Valid()
      ensures r <==> |Contents| == N
    {
      full
    }

    /** The number of live elements, counted across the wrap of the array. */
    function Size(): (n: nat)
      reads this, buffer
      requires Valid()
      ensures n == |Contents| && n <= N
      ensures n == N <==> full
      ensures n == 0 <==> IsEmpty()
    {
      CountFromIndices(buffer[..], N, head, tail, full, Contents);
      if full then N
      else if tail >= head then tail - head
      else N - head + tail
    }

    function Capacity(): (c: nat)
      reads this, buffer
      requires Valid()
      ensures c == buffer.Length && 0 < c && Size() <= c
    {
      N
    }

    /**
     * Writes `item` at `tail` and advances `tail`; on a full queue also
     * advances `head`, so the oldest element is lost.
     */
    method Push(item: T)
      requires Valid()
      modifies this, buffer
      ensures Valid()
      ensures Contents == Pushed(old(Contents), item, N)
      ensures old(full) ==> Contents == old(Contents)[1..] + [item]
      ensures !old(full) ==> Contents == old(Contents) + [item]
      ensures buffer[..] == old(buffer[..])[old(tail) := item]
      ensures tail == Wrap(old(tail) + 1, N)
      ensures head == if old(full) then Wrap(old(head) + 1, N) else old(head)
    {
      PushStep(buffer[..], N, head, tail, full, Contents, item);
      buffer[tail] := item;
      tail := NextSlot(tail, N);
      if full {
        head := NextSlot(head, N);
      } else if tail == head {
        full := true;
      }
      Contents := Pushed(Contents, item, N);
    }

    /** Drops the oldest element; fails, changing nothing, on an empty queue. */
    method Pop() returns (outcome: Outcome)
      requires Valid()
      modifies this
      ensures Valid()
      ensures outcome == Fail(QueueEmpty) <==> old(Contents) == []
      ensures old(Contents) == [] ==> unchanged(this)
      ensures old(Contents) != [] ==>
                Contents == old(Contents)[1..] && !full &&
                head == Wrap(old(head) + 1, N) && tail == old(tail)
    {
      if IsEmpty() {
        return Fail(QueueEmpty);
      }
      PopStep(buffer[..], N, head, tail, full, Contents);
      head := NextSlot(head, N);
      full := false;
      Contents := Contents[1..];
      outcome := Pass;
    }

    /** The oldest element, or a failure on an empty queue (the read-only `front`). */
    function Front(): (r: Result<T>)
      reads this, buffer
      requires Valid()
      ensures r.Failure? <==> Contents == []
      ensures r.Failure? ==> r.error == QueueEmpty
      ensures r.Success? ==> r.value == Contents[0]
    {
      if IsEmpty() then Failure(QueueEmpty) else Success(buffer[head])
    }

    /**
     * Assigns through the reference the mutable `front` returns: the oldest
     * element becomes `v` and keeps its place; fails, changing nothing, on an
     * empty queue.
     */
    method SetFront(v: T) returns (outcome: Outcome)
      requires Valid()
      modifies this, buffer
      ensures Valid()
      ensures outcome == Fail(QueueEmpty) <==> old(Contents) == []
      ensures old(Contents) == [] ==> unchanged(this, buffer)
      ensures old(Contents) != [] ==>
                Contents == old(Contents)[0 := v] &&
                buffer[..] == old(buffer[..])[head := v] &&
                head == old(head) && tail == old(tail) && full == old(full)
    {
      if IsEmpty() {
        return Fail(QueueEmpty);
      }
      SetFrontStep(buffer[..], N, head, tail, full, Contents, v);
      buffer[head] := v;
      Contents := Contents[0 := v];
      outcome := Pass;
    }

    // --- iteration ---

    /** `it` is a cursor of this queue that has passed `it.count` live elements. */
    ghost predicate Walks(it: Iterator)
      reads this
    {
      it.count <= |Contents| <= N && head < N && it.pos == Wrap(head + it.count, N)
    }

    /** A cursor on the oldest element, having passed none. */
    function Begin(): (it: Iterator)
      reads this, buffer
      requires Valid()
      ensures Walks(it) && it.count == 0
    {
      Iterator(head, 0)
    }

    /** The past-the-end cursor: it stands on `tail` and has passed every live element. */
    function End(): (it: Iterator)
      reads this, buffer
      requires Valid()
      ensures Walks(it) && it.count == |Contents| && it.pos == tail
    {
      Iterator(tail, Size())
    }

    /** The element under the cursor; on a cursor short of the end, the `count`-th oldest. */
    function Deref(it: Iterator): (x: T)
      reads this, buffer
      requires Valid() && it.pos < N
      ensures Walks(it) && it.count < |Contents| ==> x == Contents[it.count]
    {
      buffer[it.pos]
    }

    /** Prefix increment: the next slot, with wraparound, and one more element passed. */
    function Advance(it: Iterator): (next: Iterator)
      reads this, buffer
      requires Valid() && it.pos < N
      ensures next.pos < N && next.count == it.count + 1
      ensures Walks(it) && it.count < |Contents| ==> Walks(next)
    {
      Iterator(NextSlot(it.pos, N), it.count + 1)
    }

    /** Cursor equality compares the elements passed, not the slot. */
    function Equal(a: Iterator, b: Iterator): (r: bool)
      reads this, buffer
      requires Valid()
      ensures r <==> a.count == b.count
      ensures Walks(a) && Walks(b) ==> (r <==> a == b)
    {
      a.count == b.count
    }

    /** The cursor after `k` prefix increments. */
    function Iterate(it: Iterator, k: nat): (r: Iterator)
      reads this, buffer
      requires Valid() && it.pos < N
      ensures r.pos < N && r.count == it.count + k
      decreases k
    {
      if k == 0 then it else Iterate(Advance(it), k - 1)
    }

    lemma {:induction false} IterateWalks(it: Iterator, k: nat)
      requires Valid() && it.pos < N && Walks(it) && it.count + k <= |Contents|
      ensures Walks(Iterate(it, k)) && Iterate(it, k).count == it.count + k
      decreases k
    {
      if k > 0 {
        IterateWalks(Advance(it), k - 1);
      }
    }

    /**
     * Advancing `begin()` exactly `size()` times gives `end()`, and no fewer
     * advances compare equal to it, even on a full queue where `begin()` and
     * `end()` stand on the same slot.
     */
    lemma BeginReachesEnd()
      requires Valid()
      ensures Iterate(Begin(), Size()) == End()
      ensures forall k: nat :: k < Size() ==> !Equal(Iterate(Begin(), k), End())
      ensures full ==> Begin().pos == End().pos
    {
      IterateWalks(Begin(), Size());
      forall k: nat | k < Size()
        ensures !Equal(Iterate(Begin(), k), End())
      {
        IterateWalks(Begin(), k);
      }
    }

    /** Walks from `begin()` to `end()` collecting each element: the range-for loop. */
    method Elements() returns (xs: seq<T>)
      requires Valid()
      ensures xs == Contents
    {
      xs := [];
      var it, stop := Begin(), End();
      while !Equal(it, stop)
        invariant Walks(it) && xs == Contents[..it.count]
        decreases |Contents| - it.count
      {
        xs := xs + [Deref(it)];
        it := Advance(it);
      }
    }
  }
}

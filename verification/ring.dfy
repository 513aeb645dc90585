/**
 * The index arithmetic of a ring buffer of `n` slots, stated on the values of
 * its fields: which slots hold the live elements, and how `push`, `pop` and an
 * assignment to the front move them.
 */
module Ring {
  import opened QueueSpec

  /** The capacity is fixed when the queue is created and is never zero. */
  type Positive = n: nat | 0 < n witness 1

  /**
   * Index arithmetic of the ring: `x % n` for an `x` below `2 * n`, which is
   * every index the queue ever computes (a slot below `n` plus at most `n`).
   */
  function Wrap(x: nat, n: Positive): (r: nat)
    requires x < 2 * n
    ensures r < n && (r == x || r == x - n)
  {
    if x < n then x else x - n
  }

  /** The slot after `i`, as the source computes it: `(i + 1) % n`. */
  function NextSlot(i: nat, n: Positive): (r: nat)
    requires i < n
    ensures r == Wrap(i + 1, n)
    ensures r == if i + 1 == n then 0 else i + 1
  {
    (i + 1) % n
  }

  /** The `len` elements of the ring `b` read from slot `h` onward, wrapping past the last slot. */
  function Window<T>(b: seq<T>, h: nat, len: nat): (w: seq<T>)
    requires h < |b| && len <= |b|
    ensures |w| == len
    ensures forall i :: 0 <= i < len ==> w[i] == b[Wrap(h + i, |b|)]
  {
    seq(len, i requires 0 <= i < len => b[Wrap(h + i, |b|)])
  }

  /** Writing `x` into the slot just past a window that is not the whole ring extends the window by `x`. */
  lemma WindowAppend<T>(b: seq<T>, h: nat, len: nat, x: T)
    requires h < |b| && len < |b|
    ensures Window(b[Wrap(h + len, |b|) := x], h, len + 1) == Window(b, h, len) + [x]
  {
  }

  /**
   * Overwriting slot `h` of a full ring and starting the window one slot later
   * drops the oldest element and appends `x`.
   */
  lemma WindowEvict<T>(b: seq<T>, h: nat, x: T)
    requires h < |b|
    ensures Window(b[h := x], Wrap(h + 1, |b|), |b|) == Window(b, h, |b|)[1..] + [x]
  {
  }

  /** Starting a window one slot later drops its oldest element. */
  lemma WindowDrop<T>(b: seq<T>, h: nat, len: nat)
    requires h < |b| && 0 < len <= |b|
    ensures Window(b, Wrap(h + 1, |b|), len - 1) == Window(b, h, len)[1..]
  {
  }

  /** Overwriting the first slot of a non-empty window replaces its oldest element in place. */
  lemma WindowSetFirst<T>(b: seq<T>, h: nat, len: nat, v: T)
    requires h < |b| && 0 < len <= |b|
    ensures Window(b[h := v], h, len) == Window(b, h, len)[0 := v]
  {
  }

  /**
   * The fields of a queue of capacity `n` represent the contents `s`: the
   * live window of the store `b`, read from `head`, is `s`; `tail` is the slot
   * just past it; and `full` is set exactly when every slot is live.
   */
  ghost predicate RingInv<T>(b: seq<T>, n: Positive, head: nat, tail: nat, full: bool, s: seq<T>)
  {
    |b| == n && head < n && tail < n && |s| <= n &&
    s == Window(b, head, |s|) &&
    tail == Wrap(head + |s|, n) &&
    (full <==> |s| == n)
  }

  /** With the full flag clear, `head == tail` holds exactly when there are no elements. */
  lemma EmptyIffIndicesMeet<T>(b: seq<T>, n: Positive, head: nat, tail: nat, full: bool, s: seq<T>)
    requires RingInv(b, n, head, tail, full, s)
    ensures (!full && head == tail) <==> s == []
  {
  }

  /**
   * The count the source computes from the indices (all `n` when full, else
   * the distance from `head` to `tail` across the wrap) is the number of elements.
   */
  lemma CountFromIndices<T>(b: seq<T>, n: Positive, head: nat, tail: nat, full: bool, s: seq<T>)
    requires RingInv(b, n, head, tail, full, s)
    ensures |s| == if full then n else if tail >= head then tail - head else n - head + tail
  {
  }

  /**
   * Push: write at `tail`, advance `tail`, advance `head` if the queue was
   * full, else set `full` when `tail` has caught up with `head`. The fields then
   * represent the old contents with the oldest evicted when full and `x` appended.
   */
  lemma PushStep<T>(b: seq<T>, n: Positive, head: nat, tail: nat, full: bool, s: seq<T>, x: T)
    requires RingInv(b, n, head, tail, full, s)
    ensures RingInv(b[tail := x], n,
                    if full then NextSlot(head, n) else head,
                    NextSlot(tail, n),
                    full || NextSlot(tail, n) == head,
                    Pushed(s, x, n))
  {
    if full {
      WindowEvict(b, head, x);
      assert Pushed(s, x, n) == s[1..] + [x];
    } else {
      WindowAppend(b, head, |s|, x);
      assert Pushed(s, x, n) == s + [x];
    }
  }

  /** Pop: advancing `head` and clearing `full` drops exactly the oldest element. */
  lemma PopStep<T>(b: seq<T>, n: Positive, head: nat, tail: nat, full: bool, s: seq<T>)
    requires RingInv(b, n, head, tail, full, s) && s != []
    ensures RingInv(b, n, NextSlot(head, n), tail, false, s[1..])
  {
    WindowDrop(b, head, |s|);
  }

  /** Writing slot `head` of a non-empty queue replaces the oldest element and nothing else. */
  lemma SetFrontStep<T>(b: seq<T>, n: Positive, head: nat, tail: nat, full: bool, s: seq<T>, v: T)
    requires RingInv(b, n, head, tail, full, s) && s != []
    ensures RingInv(b[head := v], n, head, tail, full, s[0 := v])
  {
    WindowSetFirst(b, head, |s|, v);
  }
}

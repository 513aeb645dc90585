/**
 * The abstract behaviour of a fixed-capacity queue that overwrites its oldest
 * element when full, stated on plain sequences (oldest element first).
 */
module QueueSpec {

  /** The newest `n` elements of `t` (all of `t` when it is no longer than `n`). */
  function Newest<T>(t: seq<T>, n: nat): seq<T>
  {
    if |t| <= n then t else t[|t| - n..]
  }

  /**
   * The contents after pushing `x` onto a queue of capacity `n` that holds `s`:
   * `x` is appended, and when the queue was full its oldest element is evicted.
   */
  function Pushed<T>(s: seq<T>, x: T, n: nat): (r: seq<T>)
    requires 0 < n && |s| <= n
    ensures |r| == if |s| < n then |s| + 1 else n
    ensures r[|r| - 1] == x
  {
    if |s| == n then s[1..] + [x] else s + [x]
  }

  /** A push keeps the newest `n` of the old contents followed by the new element. */
  lemma PushedKeepsNewest<T>(s: seq<T>, x: T, n: nat)
    requires 0 < n && |s| <= n
    ensures Pushed(s, x, n) == Newest(s + [x], n)
  {
  }

  /** The contents after pushing every element of `xs`, first to last, onto `s`. */
  function PushAll<T>(s: seq<T>, xs: seq<T>, n: nat): (r: seq<T>)
    requires 0 < n && |s| <= n
    ensures |r| <= n
  {
    if xs == [] then s else Pushed(PushAll(s, xs[..|xs| - 1], n), xs[|xs| - 1], n)
  }

  /** Keeping the newest `n`, then appending, then keeping the newest `n` again, loses nothing more. */
  lemma NewestThenPush<T>(t: seq<T>, x: T, n: nat)
    requires 0 < n
    ensures Newest(Newest(t, n) + [x], n) == Newest(t + [x], n)
  {
  }

  /** Any sequence of pushes leaves exactly the newest `n` of everything pushed. */
  lemma {:induction false} PushAllKeepsNewest<T>(s: seq<T>, xs: seq<T>, n: nat)
    requires 0 < n && |s| <= n
    ensures PushAll(s, xs, n) == Newest(s + xs, n)
    decreases |xs|
  {
    if xs == [] {
      assert s + xs == s;
    } else {
      var front, x := xs[..|xs| - 1], xs[|xs| - 1];
      PushAllKeepsNewest(s, front, n);
      PushedKeepsNewest(PushAll(s, front, n), x, n);
      NewestThenPush(s + front, x, n);
      assert s + front + [x] == s + xs;
    }
  }

  /**
   * Pushing `xs` onto an empty queue: while no more than `n` values are pushed
   * they come out in the order pushed; once more than `n` are pushed only the
   * last `n` survive, and the queue is full exactly when at least `n` were pushed.
   */
  lemma {:induction false} FifoThenOverwrite<T>(xs: seq<T>, n: nat)
    requires 0 < n
    ensures |xs| <= n ==> PushAll([], xs, n) == xs
    ensures |xs| >= n ==> PushAll([], xs, n) == xs[|xs| - n..]
    ensures |PushAll([], xs, n)| == n <==> |xs| >= n
  {
    PushAllKeepsNewest([], xs, n);
    assert [] + xs == xs;
    assert PushAll([], xs, n) == Newest(xs, n);
  }
}

/**
 * The demonstration program's sequence of calls on a queue of capacity 5, with
 * what each of its observations must show.
 */
module Driver {
  import opened CircularQueue

  /**
   * Push 1..5 and list the queue; push 6 and 7 and list it again; read the
   * front; pop; read the front once more.
   */
  method Scenario() returns (afterFive: seq<int>, afterSeven: seq<int>, first: Result<int>, second: Result<int>)
    ensures afterFive == [1, 2, 3, 4, 5]
    ensures afterSeven == [3, 4, 5, 6, 7]
    ensures first == Success(3) && second == Success(4)
  {
    var q := new Queue<int>(5, 0);
    var i := 1;
    while i <= 5
      invariant 1 <= i <= 6
      invariant q.Valid() && q.N == 5
      invariant |q.Contents| == i - 1
      invariant forall j :: 0 <= j < i - 1 ==> q.Contents[j] == j + 1
    {
      q.Push(i);
      i := i + 1;
    }
    assert q.Contents == [1, 2, 3, 4, 5];
    afterFive := q.Elements();

    q.Push(6);
    assert q.Contents == [2, 3, 4, 5, 6];
    q.Push(7);
    assert q.Contents == [3, 4, 5, 6, 7];
    afterSeven := q.Elements();

    first := q.Front();
    var popped := q.Pop();
    second := q.Front();
  }
}

/**
 Callers of the linked queue that rely on its contracts alone: what a program
 driving the API can conclude about front, back, the count and the return
 codes. Construction is assumed to succeed; an enqueue may still report
 QueueBadMal, so conclusions about later steps are conditional on the
 enqueues' codes.
 */
module QueueScenarios {
  import opened QueueSpec
  import LinkedQueue

  /** Element size 1, no bound: enqueue 'a', 'b', 'c'; front and back are 'a'
      and 'c'; one dequeue leaves 'b' in front; clear removes the other two */
  method UnboundedScenario() returns (codes: seq<int>, front: Option<Bytes>, back: Option<Bytes>,
                                       nextFront: Option<Bytes>, counts: seq<nat>, cleared: int)
    ensures |codes| == 3 && forall i :: 0 <= i < 3 ==> codes[i] == 1 || codes[i] == QueueBadMal
    ensures codes == [1, 1, 1] ==>
              && front == Some([0x61]) && back == Some([0x63]) && nextFront == Some([0x62])
              && counts == [3, 2, 0] && cleared == 2
  {
    var q := new LinkedQueue.Queue(1);
    var va: Bytes, vb: Bytes, vc: Bytes := [0x61], [0x62], [0x63];
    assert va[..1] == va && vb[..1] == vb && vc[..1] == vc;
    var a := LinkedQueue.Enqueue(q, Some(va));
    var b := LinkedQueue.Enqueue(q, Some(vb));
    var c := LinkedQueue.Enqueue(q, Some(vc));
    codes := [a, b, c];
    front, back, nextFront, counts, cleared := None, None, None, [], 0;
    if codes != [1, 1, 1] {
      return;
    }
    assert q.contents == [va, vb, vc];
    front := LinkedQueue.Front(q);
    back := LinkedQueue.Back(q);
    var n0 := q.elems;
    var _ := LinkedQueue.Dequeue(q);
    assert q.contents == [vb, vc];
    nextFront := LinkedQueue.Front(q);
    var n1 := q.elems;
    cleared := LinkedQueue.Clear(q);
    counts := [n0, n1, q.elems];
  }

  /** Bound 2, set by writing the field directly: 'x' and 'y' fit, the queue
      is then full, and 'z' is refused with QueueFull leaving the count at 2 */
  method BoundedScenario() returns (codes: seq<int>, full: int, count: nat)
    ensures |codes| == 3 && (codes[0] == 1 || codes[0] == QueueBadMal) && (codes[1] == 1 || codes[1] == QueueBadMal)
    ensures codes[..2] == [1, 1] ==> codes[2] == QueueFull && full == 1 && count == 2
  {
    var q := new LinkedQueue.Queue(1);
    q.max := 2;
    var x := LinkedQueue.Enqueue(q, Some([0x78]));
    var y := LinkedQueue.Enqueue(q, Some([0x79]));
    codes, full, count := [x, y, 0], 0, 0;
    if codes[..2] != [1, 1] {
      return;
    }
    full := LinkedQueue.IsFull(q);
    var z := LinkedQueue.Enqueue(q, Some([0x7a]));
    codes := [x, y, z];
    count := q.elems;
  }

  /** A dequeue on a new queue fails with QueueZp and changes nothing */
  method EmptyDequeueScenario() returns (code: int, empty: int, count: nat)
    ensures code == QueueZp && empty == 1 && count == 0
  {
    var q := new LinkedQueue.Queue(1);
    code := LinkedQueue.Dequeue(q);
    empty := LinkedQueue.IsEmpty(q);
    count := q.elems;
  }
}

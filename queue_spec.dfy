/**
 Abstract, value-level semantics of the bounded FIFO queue of Queue.c.

 A live queue is seen as a `State`: the fixed byte width of every element,
 the capacity bound (0 means unbounded) and the stored elements, head first.
 Each C operation on a non-null queue is a function from the old `State` to
 the new one together with the `int` the C function returns. The linked
 implementation in module LinkedQueue is proved against these functions, and
 the lemmas here state what the operations promise over whole runs: FIFO
 order, the capacity bound, the counting of `queueClear`.
 */
module QueueSpec {

  /** Result codes of Queue.h. A successful enqueue or dequeue returns the
      element size instead, which is never 0, so it cannot be mistaken for one. */
  const QueueEmpty: int := 0
  const QueueZp: int := -1
  const QueueBadMal: int := -2
  const QueueFull: int := -3

  type Bytes = seq<bv8>

  datatype Option<+T> = None | Some(value: T)

  /** The abstract value of a live queue */
  datatype State = State(size: nat, max: nat, elems: seq<Bytes>)

  /** Every stored element is exactly `size` bytes wide, and `size` is nonzero */
  predicate WellFormed(s: State) {
    s.size > 0 && forall i :: 0 <= i < |s.elems| ==> |s.elems[i]| == s.size
  }

  /** The count does not exceed the bound, if one is set */
  predicate WithinBound(s: State) {
    s.max == 0 || |s.elems| <= s.max
  }

  predicate IsEmpty(s: State) {
    s.elems == []
  }

  predicate IsFull(s: State) {
    s.max != 0 && |s.elems| >= s.max
  }

  function Front(s: State): Option<Bytes> {
    if s.elems == [] then None else Some(s.elems[0])
  }

  function Back(s: State): Option<Bytes> {
    if s.elems == [] then None else Some(s.elems[|s.elems| - 1])
  }

  /** queueNew: no queue for element size 0, otherwise an empty, unbounded one */
  function New(size: nat): (r: Option<State>)
    ensures r.None? <==> size == 0
    ensures r.Some? ==> r.value.size == size && r.value.max == 0
    ensures r.Some? ==> WellFormed(r.value) && WithinBound(r.value)
    ensures r.Some? ==> IsEmpty(r.value) && !IsFull(r.value)
  {
    if size == 0 then None else Some(State(size, 0, []))
  }

  /** queueEnqueue on a live queue, for data of at least `size` readable bytes
      (allocation failure is the imperative model's concern) */
  function Enqueue(s: State, data: Bytes): (r: (State, int))
    requires |data| >= s.size
    ensures r.0.size == s.size && r.0.max == s.max
    ensures r.1 == QueueFull <==> IsFull(s)
    ensures r.1 == QueueFull ==> r.0 == s
    ensures r.1 != QueueFull ==> r.1 == s.size && |r.0.elems| == |s.elems| + 1
    ensures r.1 != QueueFull ==> r.0.elems[..|s.elems|] == s.elems
    ensures r.1 != QueueFull ==> Back(r.0) == Some(data[..s.size])
    ensures r.1 != QueueFull && s.elems != [] ==> Front(r.0) == Front(s)
  {
    if IsFull(s) then (s, QueueFull)
    else (s.(elems := s.elems + [data[..s.size]]), s.size)
  }

  /** queueDequeue on a live queue: drop the head, never hand it back */
  function Dequeue(s: State): (r: (State, int))
    ensures r.0.size == s.size && r.0.max == s.max
    ensures r.1 == QueueZp <==> IsEmpty(s)
    ensures r.1 == QueueZp ==> r.0 == s
    ensures r.1 != QueueZp ==> r.1 == s.size && s.elems == [s.elems[0]] + r.0.elems
  {
    if s.elems == [] then (s, QueueZp)
    else (s.(elems := s.elems[1..]), s.size)
  }

  /** queueClear on a live queue: dequeue until empty, counting the removals */
  function Clear(s: State): (r: (State, nat))
    ensures r.0 == s.(elems := [])
    ensures r.1 == |s.elems|
    decreases |s.elems|
  {
    if IsEmpty(s) then (s, 0)
    else
      var (rest, n) := Clear(Dequeue(s).0);
      (rest, n + 1)
  }

  /** The fronts a caller observes when it reads `Front` before each
      `Dequeue` until the queue is empty */
  function Drain(s: State): (fronts: seq<Bytes>)
    ensures fronts == s.elems
    decreases |s.elems|
  {
    if IsEmpty(s) then [] else [Front(s).value] + Drain(Dequeue(s).0)
  }

  /** Enqueue the values one after the other, collecting the return codes */
  function EnqueueAll(s: State, vs: seq<Bytes>): (r: (State, seq<int>))
    requires forall i :: 0 <= i < |vs| ==> |vs[i]| >= s.size
    ensures r.0.size == s.size && r.0.max == s.max
    ensures |r.1| == |vs|
    decreases |vs|
  {
    if vs == [] then (s, [])
    else
      var (s1, code) := Enqueue(s, vs[0]);
      var (s2, codes) := EnqueueAll(s1, vs[1..]);
      (s2, [code] + codes)
  }

  /** One call of the mutating API on a live queue */
  datatype Op = EnqueueOp(data: Bytes) | DequeueOp | ClearOp

  /** Every enqueued value of `ops` has at least `size` readable bytes */
  predicate Readable(size: nat, ops: seq<Op>) {
    forall i :: 0 <= i < |ops| ==> ops[i].EnqueueOp? ==> |ops[i].data| >= size
  }

  function Step(s: State, op: Op): (r: (State, int))
    requires op.EnqueueOp? ==> |op.data| >= s.size
    ensures r.0.size == s.size && r.0.max == s.max
    ensures r.1 < 0 ==> r.0 == s
  {
    match op
    case EnqueueOp(data) => Enqueue(s, data)
    case DequeueOp => Dequeue(s)
    case ClearOp => (Clear(s).0, Clear(s).1)
  }

  /** A sequence of calls, with the codes they return */
  function Run(s: State, ops: seq<Op>): (r: (State, seq<int>))
    requires Readable(s.size, ops)
    ensures r.0.size == s.size && r.0.max == s.max
    ensures |r.1| == |ops|
    decreases |ops|
  {
    if ops == [] then (s, [])
    else
      var (s1, code) := Step(s, ops[0]);
      var (s2, codes) := Run(s1, ops[1..]);
      (s2, [code] + codes)
  }

  lemma StepKeepsInvariant(s: State, op: Op)
    requires WellFormed(s) && WithinBound(s)
    requires op.EnqueueOp? ==> |op.data| >= s.size
    ensures WellFormed(Step(s, op).0) && WithinBound(Step(s, op).0)
  {
  }

  /** Every element stays `size` bytes wide, and a queue that respects its
      bound keeps respecting it, whatever calls are made */
  lemma {:induction false} RunKeepsInvariant(s: State, ops: seq<Op>)
    requires WellFormed(s) && WithinBound(s) && Readable(s.size, ops)
    ensures WellFormed(Run(s, ops).0) && WithinBound(Run(s, ops).0)
    decreases |ops|
  {
    if ops != [] {
      StepKeepsInvariant(s, ops[0]);
      var s1 := Step(s, ops[0]).0;
      assert Readable(s1.size, ops[1..]) by {
        forall i | 0 <= i < |ops[1..]| && ops[1..][i].EnqueueOp?
          ensures |ops[1..][i].data| >= s1.size
        {
          assert ops[1..][i] == ops[i + 1];
        }
      }
      RunKeepsInvariant(s1, ops[1..]);
    }
  }

  /** On an unbounded queue every enqueue succeeds and appends its value */
  lemma {:induction false} EnqueueAllUnbounded(s: State, vs: seq<Bytes>)
    requires s.max == 0
    requires forall i :: 0 <= i < |vs| ==> |vs[i]| == s.size
    ensures EnqueueAll(s, vs).0.elems == s.elems + vs
    ensures forall i :: 0 <= i < |vs| ==> EnqueueAll(s, vs).1[i] == s.size
    decreases |vs|
  {
    if vs != [] {
      var s1 := Enqueue(s, vs[0]).0;
      assert vs[0][..s.size] == vs[0];
      EnqueueAllUnbounded(s1, vs[1..]);
      assert s1.elems + vs[1..] == s.elems + vs;
    }
  }

  /** On a bounded queue with room for `room` more elements, exactly the
      first `room` enqueues succeed; the rest return QueueFull and change
      nothing, and the queue is full exactly when some value did not fit */
  lemma {:induction false} EnqueueAllBounded(s: State, vs: seq<Bytes>)
    requires s.max > 0 && |s.elems| <= s.max
    requires forall i :: 0 <= i < |vs| ==> |vs[i]| == s.size
    ensures var room := s.max - |s.elems|;
      && EnqueueAll(s, vs).0.elems == s.elems + vs[..if |vs| < room then |vs| else room]
      && (forall i :: 0 <= i < |vs| ==>
            EnqueueAll(s, vs).1[i] == if i < room then s.size else QueueFull)
      && (IsFull(EnqueueAll(s, vs).0) <==> |vs| >= room)
    decreases |vs|
  {
    var room := s.max - |s.elems|;
    if vs != [] {
      var (s1, code) := Enqueue(s, vs[0]);
      EnqueueAllBounded(s1, vs[1..]);
      if room == 0 {
        assert s1 == s;
      } else {
        assert vs[0][..s.size] == vs[0];
        var k := if |vs| < room then |vs| else room;
        assert s1.elems + vs[1..][..k - 1] == s.elems + vs[..k];
      }
    }
  }

  /** Round trip and FIFO order: values enqueued into a new queue come out,
      byte for byte, in the order they went in */
  lemma FifoRoundTrip(size: nat, vs: seq<Bytes>)
    requires size > 0
    requires forall i :: 0 <= i < |vs| ==> |vs[i]| == size
    ensures New(size).Some?
    ensures Drain(EnqueueAll(New(size).value, vs).0) == vs
  {
    EnqueueAllUnbounded(New(size).value, vs);
  }
}

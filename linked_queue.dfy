/**
 The linked implementation of Queue.c: a control block (`Queue`) holding the
 element size, the bound, the count and pointers to the first and last node of
 a singly linked chain of `Node`s, each owning a copy of one element's bytes.

 The C functions take a possibly-null `Queue *`; here they are module-level
 members over `Queue?`. Each state-changing one is proved against the
 corresponding function of QueueSpec through the ghost abstraction `Abs()`.
 */
module LinkedQueue {
  import opened QueueSpec

  /** QueueElem: an owned copy of one element and the link to its successor */
  class Node {
    const data: Bytes
    var next: Node?

    constructor (data: Bytes)
      ensures this.data == data && next == null
    {
      this.data := data;
      next := null;
    }
  }

  /** The queue's control block */
  class Queue {
    const size: nat
    var max: nat
    var elems: nat
    var first: Node?
    var last: Node?

    /** The stored elements, head first */
    ghost var contents: seq<Bytes>
    /** The chain of nodes from `first` to `last` */
    ghost var nodes: seq<Node>
    ghost var Repr: set<object>

    /** The count is the chain's length, `first` and `last` are the chain's
        ends, each node is linked to the next one and holds one element of
        `contents` */
    ghost predicate Valid()
      reads this, Repr
      ensures Valid() ==> this in Repr
    {
      && this in Repr
      && (forall i :: 0 <= i < |nodes| ==> nodes[i] in Repr)
      && size > 0
      && elems == |nodes| == |contents|
      && (forall i :: 0 <= i < |nodes| ==> nodes[i].data == contents[i])
      && (forall i :: 0 <= i < |contents| ==> |contents[i]| == size)
      && (forall i, j :: 0 <= i < j < |nodes| ==> nodes[i] != nodes[j])
      && (forall i :: 0 <= i < |nodes| - 1 ==> nodes[i].next == nodes[i + 1])
      && (nodes == [] ==> first == null && last == null)
      && (nodes != [] ==> first == nodes[0] && last == nodes[|nodes| - 1])
    }

    ghost function Abs(): State
      reads this
    {
      State(size, max, contents)
    }

    constructor (size: nat)
      requires size > 0
      ensures Valid() && fresh(Repr)
      ensures Abs() == State(size, 0, [])
      ensures elems == 0 && first == null && last == null
    {
      this.size := size;
      max := 0;
      elems := 0;
      first := null;
      last := null;
      contents := [];
      nodes := [];
      Repr := {this};
    }

    /** The count and the two end pointers agree: no elements exactly when
        there is no first node, one element exactly when first and last are
        the same node */
    lemma LinksMatchCount()
      requires Valid()
      ensures elems == 0 <==> first == null
      ensures elems == 0 <==> last == null
      ensures elems == 1 <==> first != null && first == last
    {
    }
  }

  /** queueNew */
  method Create(size: nat) returns (q: Queue?)
    ensures size == 0 ==> q == null
    ensures q != null ==> fresh(q.Repr) && q.Valid() && New(size) == Some(q.Abs())
    ensures q != null ==> q.elems == 0 && q.first == null && q.last == null
  {
    if size == QueueEmpty {
      return null;
    }
    // the allocation of the control block may fail
    var obtained: bool := *;
    if !obtained {
      return null;
    }
    q := new Queue(size);
  }

  /** queueIsEmpty: 1 or 0 on a live queue, QueueZp on none */
  function IsEmpty(q: Queue?): (r: int)
    reads q, if q == null then {} else q.Repr
    requires q != null ==> q.Valid()
    ensures q == null <==> r == QueueZp
    ensures q != null ==> (r == 1 <==> q.contents == []) && (r == 0 <==> q.contents != [])
  {
    if q == null then QueueZp
    else if q.first == null then 1 else 0
  }

  /** queueIsFull: 1 or 0 on a live queue, QueueZp on none */
  function IsFull(q: Queue?): (r: int)
    reads q, if q == null then {} else q.Repr
    requires q != null ==> q.Valid()
    ensures q == null <==> r == QueueZp
    ensures q != null ==> (r == 1 <==> QueueSpec.IsFull(q.Abs())) && (r == 0 <==> !QueueSpec.IsFull(q.Abs()))
    ensures q != null && q.max == 0 ==> r == 0
  {
    if q == null then QueueZp
    else if q.max != 0 && q.elems >= q.max then 1 else 0
  }

  /** queueFront: the head's bytes, or nothing on an absent or empty queue */
  function Front(q: Queue?): (r: Option<Bytes>)
    reads q, if q == null then {} else q.Repr
    requires q != null ==> q.Valid()
    ensures r.Some? <==> q != null && q.contents != []
    ensures r.Some? ==> r.value == q.contents[0]
  {
    if q == null || q.first == null then None else Some(q.first.data)
  }

  /** queueBack: the tail's bytes, or nothing on an absent or empty queue */
  function Back(q: Queue?): (r: Option<Bytes>)
    reads q, if q == null then {} else q.Repr
    requires q != null ==> q.Valid()
    ensures r.Some? <==> q != null && q.contents != []
    ensures r.Some? ==> r.value == q.contents[|q.contents| - 1]
  {
    if q == null || q.first == null then None else Some(q.last.data)
  }

  /** queueEnqueue. `data` is the caller's pointer (None for NULL); when
      present it must reference at least `size` readable bytes. */
  method Enqueue(q: Queue?, data: Option<Bytes>) returns (r: int)
    requires q != null ==> q.Valid()
    requires q != null && data.Some? ==> |data.value| >= q.size
    modifies if q == null then {} else q.Repr
    ensures q != null ==> q.Valid() && fresh(q.Repr - old(q.Repr))
    ensures q == null || data.None? ==> r == QueueZp
    ensures q != null && data.Some? && r != QueueBadMal ==>
              (q.Abs(), r) == QueueSpec.Enqueue(old(q.Abs()), data.value)
    ensures r == QueueBadMal ==> q != null && !QueueSpec.IsFull(old(q.Abs()))
    ensures q != null && r < 0 ==>
              q.Abs() == old(q.Abs()) && q.elems == old(q.elems) && q.first == old(q.first) && q.last == old(q.last)
    ensures q != null && r > 0 && old(q.first) == null ==> q.first != null && q.first == q.last
    ensures q != null && r > 0 && old(q.first) != null ==> q.first == old(q.first)
    ensures q != null && r > 0 ==> q.elems == old(q.elems) + 1
  {
    if q == null || data.None? {
      return QueueZp;
    } else if IsFull(q) != 0 {
      return QueueFull;
    }
    // either allocation (node, then its data buffer) may fail
    var nodeAllocated: bool := *;
    if !nodeAllocated {
      return QueueBadMal;
    }
    var bufferAllocated: bool := *;
    if !bufferAllocated {
      return QueueBadMal;
    }
    var node := new Node(data.value[..q.size]);
    if q.first == null {
      q.first := node;
      q.last := node;
    } else {
      q.last.next := node;
      q.last := node;
    }
    q.elems := q.elems + 1;
    q.contents := q.contents + [node.data];
    q.nodes := q.nodes + [node];
    q.Repr := q.Repr + {node};
    r := q.size;
  }

  /** queueDequeue: unlink the head; QueueZp on an absent or empty queue */
  method Dequeue(q: Queue?) returns (r: int)
    requires q != null ==> q.Valid()
    modifies q
    ensures q != null ==> q.Valid() && q.Repr == old(q.Repr)
    ensures q == null ==> r == QueueZp
    ensures q != null ==> (q.Abs(), r) == QueueSpec.Dequeue(old(q.Abs()))
    ensures q != null && r == QueueZp ==> q.elems == old(q.elems) && q.first == old(q.first) && q.last == old(q.last)
    ensures q != null && old(q.elems) == 1 ==> q.elems == 0 && q.first == null && q.last == null
    ensures q != null && old(q.elems) > 1 ==>
              old(q.first) != null && q.first == old(q.first.next) && q.last == old(q.last) && q.elems == old(q.elems) - 1
  {
    if q == null || IsEmpty(q) != 0 {
      return QueueZp;
    }
    q.LinksMatchCount();
    if q.first == q.last {
      q.first := null;
      q.last := null;
      q.elems := 0;
    } else {
      var node := q.first;
      q.first := node.next;
      q.elems := q.elems - 1;
    }
    q.contents := q.contents[1..];
    q.nodes := q.nodes[1..];
    r := q.size;
  }

  /** queueClear: dequeue until empty and count the removals */
  method Clear(q: Queue?) returns (r: int)
    requires q != null ==> q.Valid()
    modifies q
    ensures q == null ==> r == QueueZp
    ensures q != null ==> q.Valid() && q.Repr == old(q.Repr)
    ensures q != null ==> q.Abs() == QueueSpec.Clear(old(q.Abs())).0 && r == QueueSpec.Clear(old(q.Abs())).1
    ensures q != null ==> q.elems == 0 && q.first == null && q.last == null
  {
    if q == null {
      return QueueZp;
    }
    var counter := QueueEmpty;
    while IsEmpty(q) == 0
      invariant q.Valid() && q.Repr == old(q.Repr)
      invariant q.max == old(q.max)
      invariant 0 <= counter <= |old(q.contents)|
      invariant q.contents == old(q.contents)[counter..]
      decreases |q.contents|
    {
      var _ := Dequeue(q);
      counter := counter + 1;
    }
    q.LinksMatchCount();
    r := counter;
  }
}

# Bounded FIFO queue of fixed-size byte elements, in Dafny

This project models the queue of `Queue.c` and `Queue.h`. It is a generic, optionally bounded FIFO queue in C. Each element is an opaque block of `m_tSize` bytes, and the queue copies it into a node of its own.

It has three modules:

- `QueueSpec` (`queue_spec.dfy`) is the abstract view. A live queue is a value `State(size, max, elems)`: the element width, the bound (0 means unbounded) and the stored elements, head first. Each mutating C function on a non-null queue is a function from the old `State` to the new one, paired with the `int` that C returns. The lemmas in this module state what whole runs of calls do:
  - values come out in FIFO order, byte for byte;
  - exactly as many enqueues succeed as the bound leaves room for;
  - the bound and the element width are kept whatever calls are made;
  - clearing removes and counts every element.
- `LinkedQueue` (`linked_queue.dfy`) is the implementation, written imperatively as in C.
  - `Queue` is the control block. It has `size` (`m_tSize`), `max` (`m_tMax`), `elems` (`m_tElems`), `first` and `last`.
  - `Node` is a `QueueElem`. It has its `data` and a `next` link.
  - `Valid()` ties the chain to a ghost list of nodes and to the ghost `contents`.
  - The C functions are module-level members over `Queue?`, so a NULL queue is `null`. A NULL data pointer is `None`.
  - `Enqueue`, `Dequeue` and `Clear` are proved against the matching `QueueSpec` functions through `Abs()`. They also state how `first`, `last` and `elems` move.
- `QueueScenarios` (`queue_scenarios.dfy`) holds three callers. They use only the contracts to conclude what a driver observes.

The spec functions `IsEmpty`, `IsFull`, `Front`, `Back`, `WellFormed` and `WithinBound` are plain definitions used in the contracts below. `max` is an ordinary mutable field, as `m_tMax` is in C: a caller bounds a queue by assigning it (`BoundedScenario` does).

## Model

| member | source | states |
|---|---|---|
| `QueueSpec.New` | Queue.c:12-35 | No queue exists for element size 0. Any other size gives an empty, unbounded, not-full queue of that element size. |
| `QueueSpec.Enqueue` | Queue.c:77-122 | Returns `QueueFull` exactly when the queue is full, and then changes nothing. Otherwise it returns `size`, keeps the old elements as a prefix, and adds one element at the back holding the first `size` bytes of the data. The front is unchanged unless the queue was empty. |
| `QueueSpec.Dequeue` | Queue.c:124-160 | Returns `QueueZp` exactly when the queue is empty, and then changes nothing. Otherwise it returns `size` and the old elements are the removed head followed by the new elements. |
| `QueueSpec.Clear` | Queue.c:162-179 | Dequeuing until empty and counting leaves the queue empty, with the same size and bound, and counts exactly the elements that were present. |
| `QueueSpec.Drain` | Queue.c:104-160 | Reading the front before each dequeue until the queue is empty yields exactly the stored elements, head first (FIFO). |
| `QueueSpec.EnqueueAll` | Queue.c:77-122 | Successive enqueues keep the element size and the bound, and give one code per value. |
| `QueueSpec.Step` | Queue.c:77-179 | No call changes size or bound, and every call that returns a negative code leaves the queue unchanged. |
| `QueueSpec.Run` | Queue.c:77-179 | A sequence of calls keeps size and bound, and yields one code per call. |
| `QueueSpec.StepKeepsInvariant` | Queue.c:82-121 | One enqueue, dequeue or clear keeps every element exactly `size` bytes wide and the count within a nonzero bound. |
| `QueueSpec.RunKeepsInvariant` | Queue.c:82-121 | The same holds for any sequence of calls: the full check before linking means a bound, once respected, is never exceeded. |
| `QueueSpec.EnqueueAllUnbounded` | Queue.c:47-121 | On an unbounded queue, every enqueue returns `size` and the values are appended in order. |
| `QueueSpec.EnqueueAllBounded` | Queue.c:47-121 | With room for `room` more elements, exactly the first `room` enqueues return `size` and are appended. The rest return `QueueFull` and add nothing. The queue ends full exactly when at least `room` values were offered. |
| `QueueSpec.FifoRoundTrip` | Queue.c:104-118 | The values enqueued into a new queue are observed at the front, one dequeue after another, byte-identical and in enqueue order. |
| `LinkedQueue.Node.constructor` | Queue.c:87-105 | A new node holds exactly the copied bytes and has no successor. |
| `LinkedQueue.Queue.Valid` | Queue.h:44-50 | The object invariant, which belongs to the control block's footprint. It says that `m_tElems` equals the chain length, that first and last are the ends of an acyclic chain of distinct nodes, and that every node holds `m_tSize` bytes. |
| `LinkedQueue.Queue.constructor` | Queue.c:26-31 | A new control block is valid and empty, with no first or last node, bound 0 and the given size. |
| `LinkedQueue.Queue.LinksMatchCount` | Queue.c:126-131 | The count is 0 exactly when there is no first node, which is also exactly when there is no last node. The count is 1 exactly when first and last are the same node. |
| `LinkedQueue.Create` | Queue.c:12-35 | Size 0 gives `null`. A queue that is returned is fresh, valid, empty, unbounded and has the requested size; it agrees with `QueueSpec.New`. Allocation failure also gives `null`. |
| `LinkedQueue.IsEmpty` | Queue.c:37-45 | Returns `QueueZp` exactly for a null queue. Otherwise it returns 1 when the queue holds no elements and 0 when it holds some. |
| `LinkedQueue.IsFull` | Queue.c:47-55 | Returns `QueueZp` exactly for a null queue. Otherwise it returns 1 or 0 as the abstract queue is full or not. An unbounded queue is never full. |
| `LinkedQueue.Front` | Queue.c:57-65 | Returns nothing for a null or empty queue. Otherwise it returns the head element's bytes. |
| `LinkedQueue.Back` | Queue.c:67-75 | Returns nothing for a null or empty queue. Otherwise it returns the tail element's bytes. |
| `LinkedQueue.Enqueue` | Queue.c:77-122 | Returns `QueueZp` for a null queue or null data. Allocation failure (`QueueBadMal`) happens only on a non-full queue. Every other outcome matches `QueueSpec.Enqueue`. Every error leaves count, first, last and contents unchanged. A successful enqueue increments the count, makes the new node first and last on an empty queue, and otherwise keeps first. |
| `LinkedQueue.Dequeue` | Queue.c:124-160 | Returns `QueueZp` for a null queue. Otherwise it matches `QueueSpec.Dequeue`. With one element it resets first and last to null and the count to 0. With more, first advances to its successor, last stays, and the count drops by one. |
| `LinkedQueue.Clear` | Queue.c:162-179 | Returns `QueueZp` for a null queue. Otherwise the dequeue loop matches `QueueSpec.Clear`: it returns the number of elements present and leaves the queue empty, with no first or last node and the same size and bound. |
| `QueueScenarios.UnboundedScenario` | Queue.c:57-179 | With element size 1 and no bound, after enqueuing 'a', 'b' and 'c' successfully, front is 'a', back is 'c' and the count is 3. One dequeue leaves 'b' in front and a count of 2. Clear then returns 2 and the count is 0. |
| `QueueScenarios.BoundedScenario` | Queue.c:47-122 | With bound 2, after 'x' and 'y' are stored the queue is full. 'z' is refused with `QueueFull` and the count stays 2. |
| `QueueScenarios.EmptyDequeueScenario` | Queue.c:124-128 | A dequeue on a new queue returns `QueueZp`, and the queue stays empty with a count of 0. |

## Left out

- Memory reclamation (`free`) is not modelled; Dafny is garbage-collected. Dequeued nodes simply become unreachable.
- `LinkedQueue.Create` and `LinkedQueue.Enqueue` model `malloc` failure as a nondeterministic outcome. It returns `null` or `QueueBadMal` and leaves the state unchanged. Which allocation failed (node or buffer) is not distinguished. This is why their contracts and the scenarios' conclusions are conditional on the codes.
- `LinkedQueue.Front` and `LinkedQueue.Back` return the stored bytes as a value, not a pointer into the node. The pointer's identity and its invalidation by a later dequeue are not modelled.
- `LinkedQueue.Enqueue` requires that non-null data has at least `size` bytes. In C, reading fewer bytes with `memcpy` is undefined behaviour and is not checked at run time.
- `LinkedQueue.Node.constructor` sets `next` to null. In C the new node's `m_pNext` is left uninitialised, because `malloc` does not zero memory, although the comment at Queue.c:87 says it does. The tail's link is never read, since dequeue compares first and last instead. `Queue.Valid` therefore constrains only the links between stored nodes.
- `LinkedQueue.Enqueue`, `LinkedQueue.Dequeue` and `LinkedQueue.Clear` return unbounded integers. The narrowing of `size_t` to the `int` return value, and the overflow of `iCounter` in `queueClear`, are not modelled.
- `m_tSize` is a constant field here. Queue.h allows writing it but advises against it; the design treats the element width as fixed at construction.
- `QueueSpec.RunKeepsInvariant` covers only runs that do not reassign the bound. A caller who sets `max` below the current count makes the queue full until it is drained. The source permits this, and `LinkedQueue.Queue.Valid` does not forbid it.
- The scenarios construct the queue with the class constructor, which assumes the control block's allocation succeeds.
- The source has no destroy operation, so none is modelled. main.c, the command-line demo, is not part of this model; it releases the control block without clearing it first.
- The queue has no concurrency, so none is modelled.

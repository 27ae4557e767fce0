/** The FIFO queue adaptor over the linked list: `push` appends at the back, `pop` removes
    from the front. */
module Queues {
  import opened Lists

  class Queue<T> {
    var c: List<T>

    /** The underlying list has linked sentinels, as the default-constructed list has. */
    ghost predicate Valid()
      reads this, c
    {
      c.Valid() && c.linked
    }

    /** What the queue holds, oldest first. */
    function Elements(): (r: seq<T>)
      reads this, c
    {
      c.elems
    }

    /** `Queue()`: an empty default-constructed list. */
    constructor Empty()
      ensures Valid() && fresh(c) && Elements() == []
    {
      c := new List.Empty();
    }

    /** `front()`: the oldest element. */
    function Front(): (r: T)
      reads this, c
      requires Valid() && Elements() != []
      ensures r == Elements()[0]
    {
      c.Front()
    }

    /** `back()`: the newest element. */
    function Back(): (r: T)
      reads this, c
      requires Valid() && Elements() != []
      ensures r == Elements()[|Elements()| - 1]
    {
      c.Back()
    }

    /** `empty()`. */
    function IsEmpty(): (r: bool)
      reads this, c
      ensures r <==> Elements() == []
    {
      c.IsEmpty()
    }

    /** `size()`. */
    function Size(): (r: nat)
      reads this, c
      ensures r == |Elements()|
    {
      c.Size()
    }

    /** `push(value)`: `push_back` on the list. */
    method Push(value: T)
      requires Valid()
      modifies c
      ensures Valid() && Elements() == old(Elements()) + [value] && Back() == value
    {
      c.PushBack(value);
    }

    /** `pop()`: `pop_front` on the list; nothing on an empty queue. */
    method Pop()
      requires Valid()
      modifies c
      ensures Valid()
      ensures old(Elements()) == [] ==> Elements() == []
      ensures old(Elements()) != [] ==> Elements() == old(Elements())[1..]
    {
      c.PopFront();
    }
  }

  /** `operator==`: equal sizes, then the elements compared pairwise from the front. */
  method QueueEquals<T(==)>(lhs: Queue<T>, rhs: Queue<T>) returns (r: bool)
    requires lhs.Valid() && rhs.Valid()
    ensures r <==> lhs.Elements() == rhs.Elements()
  {
    if lhs.c.Size() != rhs.c.Size() {
      return false;
    }
    var i := 0;
    while i < lhs.c.Size()
      invariant i <= |lhs.Elements()|
      invariant lhs.Elements()[..i] == rhs.Elements()[..i]
    {
      if lhs.c.elems[i] != rhs.c.elems[i] {
        return false;
      }
      assert lhs.Elements()[..i + 1] == lhs.Elements()[..i] + [lhs.Elements()[i]];
      assert rhs.Elements()[..i + 1] == rhs.Elements()[..i] + [rhs.Elements()[i]];
      i := i + 1;
    }
    assert lhs.Elements()[..i] == lhs.Elements();
    assert rhs.Elements()[..i] == rhs.Elements();
    return true;
  }

  /** A sequence of queue operations, for stating the first-in first-out discipline. */
  datatype QueueOp<T> = PushOp(value: T) | PopOp

  /** The values pushed by `ops`, in order. */
  function Pushed<T>(ops: seq<QueueOp<T>>): (r: seq<T>)
    ensures |r| <= |ops|
  {
    if ops == [] then []
    else if ops[0].PushOp? then [ops[0].value] + Pushed(ops[1..])
    else Pushed(ops[1..])
  }

  /** Runs `ops` from contents `q` as `Push` and `Pop` do; the result is the final contents
      and the values `Pop` removed, in the order they were removed. */
  function Run<T>(q: seq<T>, ops: seq<QueueOp<T>>): (r: (seq<T>, seq<T>))
    decreases |ops|
  {
    if ops == [] then (q, [])
    else if ops[0].PushOp? then Run(q + [ops[0].value], ops[1..])
    else if q == [] then Run(q, ops[1..])
    else
      var rest := Run(q[1..], ops[1..]);
      (rest.0, [q[0]] + rest.1)
  }

  /** First in, first out: the values popped, followed by what is left, are exactly the
      initial contents followed by everything pushed, in pushing order; nothing is lost,
      duplicated or reordered. */
  lemma {:induction false} RunFifo<T>(q: seq<T>, ops: seq<QueueOp<T>>)
    ensures Run(q, ops).1 + Run(q, ops).0 == q + Pushed(ops)
    decreases |ops|
  {
    if ops == [] {
    } else if ops[0].PushOp? {
      var x, more := ops[0].value, ops[1..];
      RunFifo(q + [x], more);
      assert Run(q, ops) == Run(q + [x], more);
      assert Pushed(ops) == [x] + Pushed(more);
      assert (q + [x]) + Pushed(more) == q + ([x] + Pushed(more));
    } else if q == [] {
      RunFifo(q, ops[1..]);
      assert Run(q, ops) == Run(q, ops[1..]) && Pushed(ops) == Pushed(ops[1..]);
    } else {
      var more := ops[1..];
      RunFifo(q[1..], more);
      var rest := Run(q[1..], more);
      assert Run(q, ops) == (rest.0, [q[0]] + rest.1) && Pushed(ops) == Pushed(more);
      assert [q[0]] + rest.1 + rest.0 == [q[0]] + (rest.1 + rest.0);
      assert [q[0]] + (q[1..] + Pushed(more)) == q + Pushed(more);
    }
  }
}

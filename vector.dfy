/** The dynamic array: a possibly null buffer, its capacity and the number of elements in
    use. Iterators are indices into the buffer; `end()` is index `size`. */
module Vectors {
  import opened Wrappers

  /** The capacity `grow()` picks as written: 1 when there is no buffer, otherwise double. */
  function GrownCapacity(hasBuffer: bool, capacity: nat): (r: nat)
    ensures !hasBuffer ==> r == 1
    ensures hasBuffer ==> r == 2 * capacity
  {
    if hasBuffer then 2 * capacity else 1
  }

  /** `GrownCapacity(true, c) == 2 * c` at `c == 0`: a buffer of capacity 0 that is not null
      stays at capacity 0 when grown, so the write `push_back` makes after growing is out of
      bounds. */
  lemma GrowStuckAtZero()
    ensures GrownCapacity(true, 0) == 0
  {
  }

  /** The capacity growth evidently intended: 1 for an empty buffer, otherwise double, so
      growing always makes room for one more element. */
  function GrownCapacityCorrected(capacity: nat): (r: nat)
    ensures r > capacity
    ensures capacity > 0 ==> r == 2 * capacity
  {
    if capacity == 0 then 1 else 2 * capacity
  }

  /** `erase(first, last)` as written returns `end()` when `last` is the position of the last
      element; the value as a position in the vector after the erase. */
  function EraseRangeResult(first: nat, last: nat, size: nat): (r: nat)
    requires first <= last <= size
    ensures last + 1 == size ==> r == size - (last - first)
    ensures last + 1 != size ==> r == first
  {
    if last + 1 == size then size - (last - first) else first
  }

  /** Erasing `[0, 1)` of a two-element vector leaves one element at position 0, but the
      returned position is 1, the end: the element after the erased window is skipped. */
  lemma EraseRangeSkipsLast()
    ensures EraseRangeResult(0, 1, 2) == 1 && 2 - (1 - 0) == 1
  {
  }

  class Vector<T(0)> {
    var buffer: array?<T>
    var capacity: nat
    var size: nat

    /** The buffer is null exactly when nothing was ever allocated (capacity 0), its length
        is the capacity, and the elements in use fit in it. */
    ghost predicate Valid()
      reads this
    {
      && (buffer == null ==> capacity == 0)
      && (buffer != null ==> buffer.Length == capacity)
      && size <= capacity
    }

    /** The elements in use, front to back. */
    ghost function Elements(): (r: seq<T>)
      reads this, buffer
      requires Valid()
      ensures |r| == size
    {
      if buffer == null then [] else buffer[..size]
    }

    /** Default constructor: no buffer, capacity and size 0. */
    constructor Empty()
      ensures Valid() && buffer == null && capacity == 0 && size == 0 && Elements() == []
    {
      buffer := null;
      capacity := 0;
      size := 0;
    }

    /** `Vector(count, value)`: `count` copies of `value`, capacity `count`; no buffer when
        `count` is 0. */
    constructor Filled(count: nat, value: T)
      ensures Valid() && capacity == count && (count == 0 <==> buffer == null)
      ensures Elements() == seq(count, _ => value)
    {
      if count == 0 {
        buffer := null;
      } else {
        var a := new T[count];
        var i := 0;
        while i < count
          invariant i <= count
          invariant forall k :: 0 <= k < i ==> a[k] == value
        {
          a[i] := value;
          i := i + 1;
        }
        buffer := a;
      }
      size := count;
      capacity := count;
    }

    /** `Vector(count)`: `count` value-initialised elements; `zero` stands for `T{}`. */
    constructor Sized(count: nat, zero: T)
      ensures Valid() && capacity == count && (count == 0 <==> buffer == null)
      ensures Elements() == seq(count, _ => zero)
    {
      if count == 0 {
        buffer := null;
      } else {
        buffer := new T[count](_ => zero);
      }
      capacity := count;
      size := count;
    }

    /** Copy the first `n` elements of `src` into a new buffer of length `length`. */
    static method CopyPrefix(src: array?<T>, n: nat, length: nat) returns (a: array<T>)
      requires n <= length && (n > 0 ==> src != null && n <= src.Length)
      ensures fresh(a) && a.Length == length
      ensures n > 0 ==> a[..n] == src[..n]
    {
      a := new T[length];
      var i := 0;
      while i < n
        invariant i <= n
        invariant forall k :: 0 <= k < i ==> a[k] == src[k]
      {
        a[i] := src[i];
        i := i + 1;
      }
    }

    /** Copy constructor: the same size, capacity and elements in a new buffer, which is
        allocated (with length `capacity`) even when the capacity is 0. */
    constructor Copy(other: Vector<T>)
      requires other.Valid()
      ensures Valid() && size == other.size && capacity == other.capacity
      ensures buffer != null && fresh(buffer) && Elements() == other.Elements()
    {
      var a := CopyPrefix(other.buffer, other.size, other.capacity);
      size := other.size;
      capacity := other.capacity;
      buffer := a;
    }

    /** Move constructor: take the buffer, size and capacity; `other` is left with none. */
    constructor Move(other: Vector<T>)
      requires other.Valid()
      modifies other
      ensures Valid() && buffer == old(other.buffer) && size == old(other.size)
      ensures capacity == old(other.capacity)
      ensures other.Valid() && other.buffer == null && other.size == 0 && other.capacity == 0
    {
      size := other.size;
      capacity := other.capacity;
      buffer := other.buffer;
      new;
      other.size := 0;
      other.capacity := 0;
      other.buffer := null;
    }

    /** Copy assignment: nothing on self-assignment, otherwise as the copy constructor. */
    method CopyAssign(other: Vector<T>)
      requires Valid() && other.Valid()
      modifies this
      ensures Valid()
      ensures this == other ==> unchanged(this)
      ensures this != other ==> (size == other.size && capacity == other.capacity && buffer != null
                                 && fresh(buffer) && Elements() == other.Elements())
    {
      if this != other {
        size := other.size;
        capacity := other.capacity;
        buffer := CopyPrefix(other.buffer, other.size, other.capacity);
      }
    }

    /** Move assignment: nothing on self-assignment, otherwise as the move constructor. */
    method MoveAssign(other: Vector<T>)
      requires Valid() && other.Valid()
      modifies this, other
      ensures this == other ==> unchanged(this)
      ensures this != other ==> (Valid() && buffer == old(other.buffer) && size == old(other.size)
                                 && capacity == old(other.capacity))
      ensures this != other ==> (other.Valid() && other.buffer == null && other.size == 0
                                 && other.capacity == 0)
    {
      if this != other {
        size := other.size;
        capacity := other.capacity;
        buffer := other.buffer;
        other.size := 0;
        other.capacity := 0;
        other.buffer := null;
      }
    }

    /** `grow()` as written: a new buffer of `GrownCapacity` holding the elements in use. */
    method Grow()
      requires Valid()
      modifies this
      ensures Valid() && size == old(size) && fresh(buffer) && buffer != null
      ensures capacity == GrownCapacity(old(buffer) != null, old(capacity))
      ensures Elements() == old(Elements())
    {
      var n := GrownCapacity(buffer != null, capacity);
      buffer := CopyPrefix(buffer, size, n);
      capacity := n;
    }

    /** `grow()` with the corrected capacity: always room for one more element after it. */
    method GrowCorrected()
      requires Valid()
      modifies this
      ensures Valid() && size == old(size) && fresh(buffer) && buffer != null
      ensures capacity == GrownCapacityCorrected(old(capacity)) && capacity > size
      ensures Elements() == old(Elements())
    {
      var n := GrownCapacityCorrected(capacity);
      buffer := CopyPrefix(buffer, size, n);
      capacity := n;
    }

    /** `empty()`. */
    function IsEmpty(): (r: bool)
      reads this, buffer
      requires Valid()
      ensures r <==> Elements() == []
    {
      size == 0
    }

    /** `size()`: the number of elements in use. */
    function Size(): (r: nat)
      reads this, buffer
      requires Valid()
      ensures r == |Elements()| && r <= capacity
    {
      size
    }

    /** `operator[](pos)`: the element at `pos`, unchecked; only positions below the size hold
        elements. */
    function Get(pos: nat): (r: T)
      reads this, buffer
      requires Valid() && pos < size
      ensures r == Elements()[pos]
    {
      buffer[pos]
    }

    /** `at(pos)`: the element at `pos`, or `out_of_range` when `pos` is not below the size. */
    function At(pos: nat): (r: Result<T>)
      reads this, buffer
      requires Valid()
      ensures r.Success? <==> pos < |Elements()|
      ensures r.Success? ==> r.value == Elements()[pos]
      ensures r.Failure? ==> r.error == OutOfRange
    {
      if pos >= size then Failure(OutOfRange) else Success(buffer[pos])
    }

    /** `front()` as written: `invalid_argument` only when there is no buffer; otherwise slot 0,
        which is stale once the vector has been emptied. */
    function Front(): (r: Result<T>)
      reads this, buffer
      requires Valid() && (buffer != null ==> capacity > 0)
      ensures r.Failure? <==> buffer == null
      ensures r.Failure? ==> r.error == InvalidArgument
      ensures size > 0 ==> r == Success(Elements()[0])
    {
      if buffer == null then Failure(InvalidArgument) else Success(buffer[0])
    }

    /** `back()` as written: `invalid_argument` only when there is no buffer; otherwise slot
        `size - 1`, which needs a non-empty vector. */
    function Back(): (r: Result<T>)
      reads this, buffer
      requires Valid() && (buffer != null ==> size > 0)
      ensures r.Failure? <==> buffer == null
      ensures r.Failure? ==> r.error == InvalidArgument
      ensures r.Success? ==> r.value == Elements()[size - 1]
    {
      if buffer == null then Failure(InvalidArgument) else Success(buffer[size - 1])
    }

    /** A vector emptied by `pop_back` or `clear` keeps its buffer, and `front()` then returns
        the stale slot 0 instead of throwing. */
    lemma FrontOfEmptied()
      requires Valid() && buffer != null && capacity > 0 && size == 0
      ensures Elements() == [] && Front().Success?
    {
    }

    /** `front()` as evidently intended: `invalid_argument` exactly when there are no elements. */
    function FrontCorrected(): (r: Result<T>)
      reads this, buffer
      requires Valid()
      ensures r.Failure? <==> Elements() == []
      ensures r.Failure? ==> r.error == InvalidArgument
      ensures r.Success? ==> r.value == Elements()[0]
    {
      if size == 0 then Failure(InvalidArgument) else Success(buffer[0])
    }

    /** `back()` as evidently intended: `invalid_argument` exactly when there are no elements. */
    function BackCorrected(): (r: Result<T>)
      reads this, buffer
      requires Valid()
      ensures r.Failure? <==> Elements() == []
      ensures r.Failure? ==> r.error == InvalidArgument
      ensures r.Success? ==> r.value == Elements()[|Elements()| - 1]
    {
      if size == 0 then Failure(InvalidArgument) else Success(buffer[size - 1])
    }

    /** The shifting loop shared by both `insert`s: walking from `at` to the end, each slot
        takes the value carried from the left, and the last carried value lands at `size`.
        The effect is `v` inserted at position `at`. */
    method ShiftIn(at: nat, v: T)
      requires Valid() && at <= size < capacity
      modifies buffer, this`size
      ensures Valid() && size == old(size) + 1
      ensures Elements() == old(Elements())[..at] + [v] + old(Elements())[at..]
    {
      ghost var e := Elements();
      var prev := v;
      var curr := at;
      while curr != size
        invariant at <= curr <= size && Valid() && size == |e|
        invariant forall k :: 0 <= k < at ==> buffer[k] == e[k]
        invariant forall k :: at < k < curr ==> buffer[k] == e[k - 1]
        invariant curr > at ==> buffer[at] == v
        invariant forall k :: curr <= k < size ==> buffer[k] == e[k]
        invariant prev == if curr == at then v else e[curr - 1]
        decreases size - curr
      {
        var temp := buffer[curr];
        buffer[curr] := prev;
        prev := temp;
        curr := curr + 1;
      }
      buffer[curr] := prev;
      size := size + 1;
      assert Elements() == e[..at] + [v] + e[at..] by {
        forall k | 0 <= k < size
          ensures Elements()[k] == (e[..at] + [v] + e[at..])[k]
        {
        }
      }
    }

    /** `push_back(value)`: grow when full, then store `value` after the last element. The
        growth is the corrected one: it agrees with `grow()` as written except on a non-null
        buffer of capacity 0, where the source writes out of bounds. */
    method PushBack(value: T)
      requires Valid()
      modifies this, buffer
      ensures Valid() && size == old(size) + 1
      ensures Elements() == old(Elements()) + [value]
      ensures old(size) < old(capacity) ==> capacity == old(capacity) && buffer == old(buffer)
      ensures old(size) == old(capacity) ==> capacity == GrownCapacityCorrected(old(capacity))
      ensures old(size) == old(capacity) && (old(buffer) == null || old(capacity) > 0) ==>
                capacity == GrownCapacity(old(buffer) != null, old(capacity))
    {
      if size == capacity {
        GrowCorrected();
      }
      ghost var e := Elements();
      buffer[size] := value;
      size := size + 1;
      assert Elements() == e + [value] by {
        assert forall k :: 0 <= k < size - 1 ==> Elements()[k] == e[k];
      }
    }

    /** `pop_back()`: drop the last element; nothing on an empty vector. */
    method PopBack()
      requires Valid()
      modifies this`size
      ensures Valid()
      ensures old(size) > 0 ==> Elements() == old(Elements())[..old(size) - 1]
      ensures old(size) == 0 ==> size == 0
    {
      if size > 0 {
        size := size - 1;
      }
    }

    /** `insert(pos, value)`: grow when full, then shift the suffix from `pos` right by one and
        store `value` at `pos`; the returned iterator is position `pos` in the new buffer. The
        growth is the corrected one, as in `PushBack`. */
    method Insert(pos: nat, value: T) returns (r: nat)
      requires Valid() && pos <= size
      modifies this, buffer
      ensures Valid() && r == pos && size == old(size) + 1
      ensures Elements() == old(Elements())[..pos] + [value] + old(Elements())[pos..]
      ensures old(size) < old(capacity) ==> capacity == old(capacity) && buffer == old(buffer)
      ensures old(size) == old(capacity) ==> capacity == GrownCapacityCorrected(old(capacity))
      ensures old(size) == old(capacity) && (old(buffer) == null || old(capacity) > 0) ==>
                capacity == GrownCapacity(old(buffer) != null, old(capacity))
    {
      if size == capacity {
        GrowCorrected();
      }
      ShiftIn(pos, value);
      r := pos;
    }

    /** `insert(pos, count, value)`: grow until there is room, shift the suffix from `pos`
        right one slot at a time `count` times, then fill `[pos, pos + count)` with `value`.
        With `count > 0` and `pos` the end, the shifting loop of the source never stops, so
        the model requires `pos` below the size then. The growth is the corrected one: as
        written, a non-null buffer of capacity 0 never grows and the loop never stops. */
    method InsertCount(pos: nat, count: nat, value: T) returns (r: nat)
      requires Valid() && pos <= size && (count > 0 ==> pos < size)
      modifies this, buffer
      ensures Valid() && r == pos && size == old(size) + count
      ensures Elements() == old(Elements())[..pos] + seq(count, _ => value) + old(Elements())[pos..]
    {
      ghost var e := Elements();
      while size + count > capacity
        invariant Valid() && Elements() == e && (buffer == old(buffer) || fresh(buffer))
        decreases size + count - capacity
      {
        GrowCorrected();
      }
      OpenGap(pos, count);
      Fill(pos, count, value);
      assert Elements() == e[..pos] + seq(count, _ => value) + e[pos..] by {
        forall k | 0 <= k < size
          ensures Elements()[k] == (e[..pos] + seq(count, _ => value) + e[pos..])[k]
        {
          if pos + count <= k {
            assert Elements()[k] == Elements()[pos + count..][k - pos - count];
          }
        }
      }
      r := pos;
    }

    /** The first loop of `insert(pos, count, value)`: `count` times, shift the elements from
        `pos + i` right by one slot, opening a gap of `count` slots at `pos`. */
    method OpenGap(pos: nat, count: nat)
      requires Valid() && pos <= size && size + count <= capacity && (count > 0 ==> pos < size)
      modifies buffer, this`size
      ensures Valid() && size == old(size) + count
      ensures Elements()[..pos] == old(Elements())[..pos]
      ensures Elements()[pos + count..] == old(Elements())[pos..]
    {
      ghost var e := Elements();
      var i := 0;
      while i < count
        invariant i <= count && Valid() && size == |e| + i
        invariant Elements()[..pos] == e[..pos] && Elements()[pos + i..] == e[pos..]
      {
        ghost var before := Elements();
        assert before[pos + i] == before[pos + i..][0] == e[pos];
        ShiftIn(pos + i + 1, buffer[pos + i]);
        assert Elements()[..pos] == before[..pos];
        assert Elements()[pos + i + 1..] == before[pos + i..];
        i := i + 1;
      }
    }

    /** The second loop of `insert(pos, count, value)`: store `value` in `[pos, pos + count)`. */
    method Fill(pos: nat, count: nat, value: T)
      requires Valid() && pos + count <= size
      modifies buffer
      ensures Valid() && |Elements()| == |old(Elements())|
      ensures forall k :: 0 <= k < size && !(pos <= k < pos + count) ==> Elements()[k] == old(Elements())[k]
      ensures forall k :: pos <= k < pos + count ==> Elements()[k] == value
    {
      var i := 0;
      while i < count
        invariant i <= count
        invariant forall k :: 0 <= k < size && !(pos <= k < pos + i) ==> buffer[k] == old(buffer[k])
        invariant forall k :: pos <= k < pos + i ==> buffer[k] == value
      {
        buffer[pos + i] := value;
        i := i + 1;
      }
    }

    /** `erase(pos)`: the last element is dropped directly; otherwise the slots from `pos` to
        just before the last are swapped with the last slot from right to left, rotating the
        suffix left by one. The returned iterator is position `pos` either way. */
    method Erase(pos: nat) returns (r: nat)
      requires Valid() && pos < size
      modifies this`size, buffer
      ensures Valid() && r == pos && size == old(size) - 1 && capacity == old(capacity)
      ensures Elements() == old(Elements())[..pos] + old(Elements())[pos + 1..]
    {
      ghost var e := Elements();
      var n := size;
      if pos == n - 1 {
        size := size - 1;
        assert Elements() == e[..pos] + e[pos + 1..];
        return size;
      }
      var curr := n - 2;
      while curr != pos
        invariant pos <= curr <= n - 2 && size == n
        invariant forall k :: 0 <= k <= curr ==> buffer[k] == e[k]
        invariant forall k :: curr < k < n - 1 ==> buffer[k] == e[k + 1]
        invariant buffer[n - 1] == e[curr + 1]
        decreases curr - pos
      {
        var temp := buffer[curr];
        buffer[curr] := buffer[n - 1];
        buffer[n - 1] := temp;
        curr := curr - 1;
      }
      buffer[curr] := buffer[n - 1];
      size := size - 1;
      assert Elements() == e[..pos] + e[pos + 1..] by {
        forall k | 0 <= k < size
          ensures Elements()[k] == (e[..pos] + e[pos + 1..])[k]
        {
        }
      }
      r := pos;
    }

    /** `erase(first, last)` as written: erase at `first` `last - first` times; the result is
        `end()` when `last` was the position of the last element, otherwise `first`. */
    method EraseRange(first: nat, last: nat) returns (r: nat)
      requires Valid() && first <= last <= size
      modifies this`size, buffer
      ensures Valid() && size == old(size) - (last - first) && capacity == old(capacity)
      ensures Elements() == old(Elements())[..first] + old(Elements())[last..]
      ensures r == EraseRangeResult(first, last, old(size))
    {
      ghost var e := Elements();
      var eraseLast := last + 1 == size;
      var window := last - first;
      var i := 0;
      while i < window
        invariant i <= window && Valid() && size == |e| - i && capacity == old(capacity)
        invariant Elements() == e[..first] + e[first + i..]
      {
        var _ := Erase(first);
        assert (e[..first] + e[first + i..])[first + 1..] == e[first + i + 1..];
        i := i + 1;
      }
      r := if eraseLast then size else first;
    }

    /** `erase(first, last)` with the result evidently intended: the position of the element
        that followed the window, which is `first`. */
    method EraseRangeCorrected(first: nat, last: nat) returns (r: nat)
      requires Valid() && first <= last <= size
      modifies this`size, buffer
      ensures Valid() && size == old(size) - (last - first) && capacity == old(capacity)
      ensures Elements() == old(Elements())[..first] + old(Elements())[last..]
      ensures r == first && (r < size ==> Elements()[r] == old(Elements())[last])
    {
      ghost var e := Elements();
      var window := last - first;
      var i := 0;
      while i < window
        invariant i <= window && Valid() && size == |e| - i && capacity == old(capacity)
        invariant Elements() == e[..first] + e[first + i..]
      {
        var _ := Erase(first);
        assert (e[..first] + e[first + i..])[first + 1..] == e[first + i + 1..];
        i := i + 1;
      }
      r := first;
    }

    /** `clear()`: size 0, the buffer and the capacity are kept. */
    method Clear()
      requires Valid()
      modifies this`size
      ensures Valid() && size == 0 && Elements() == []
    {
      size := 0;
    }
  }
}

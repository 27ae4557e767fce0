/** The doubly linked list with `head` and `tail` sentinels, modelled by the sequence of
    its elements. An iterator is a position in that sequence: position `|elems|` is `end()`
    (the tail sentinel), and `None` is a null node pointer. `linked` says whether the
    sentinels point at each other or at the element nodes; only a list move-constructed
    from an empty list has them null. */
module Lists {
  import opened Wrappers

  class List<T> {
    var elems: seq<T>
    var linked: bool

    /** Unlinked sentinels only occur with no elements. */
    ghost predicate Valid()
      reads this
    {
      linked || elems == []
    }

    /** What the list holds, front to back. */
    function Elements(): (r: seq<T>)
      reads this
    {
      elems
    }

    /** `List()`: the sentinels point at each other. */
    constructor Empty()
      ensures Valid() && linked && Elements() == []
    {
      elems := [];
      linked := true;
    }

    /** `List(count, value)`: `count` nodes holding `value`, each linked in before the tail. */
    constructor Filled(count: nat, value: T)
      ensures Valid() && linked && Elements() == seq(count, _ => value)
    {
      elems := [];
      linked := true;
      new;
      var i := 0;
      while i < count
        invariant i <= count && linked && elems == seq(i, _ => value)
      {
        elems := elems + [value];
        i := i + 1;
      }
    }

    /** `List(count)`: `count` default-constructed elements; `zero` stands for `T()`. */
    constructor Sized(count: nat, zero: T)
      ensures Valid() && linked && Elements() == seq(count, _ => zero)
    {
      elems := [];
      linked := true;
      new;
      var i := 0;
      while i < count
        invariant i <= count && linked && elems == seq(i, _ => zero)
      {
        elems := elems + [zero];
        i := i + 1;
      }
    }

    /** Append a copy of every element of `other`, in order, as the copy operations do. */
    method AppendAll(other: List<T>)
      requires linked && other != this
      modifies this`elems
      ensures Elements() == old(Elements()) + other.Elements()
    {
      var i := 0;
      while i < |other.elems|
        invariant i <= |other.elems| && elems == old(elems) + other.elems[..i]
      {
        assert other.elems[..i + 1] == other.elems[..i] + [other.elems[i]];
        elems := elems + [other.elems[i]];
        i := i + 1;
      }
      assert other.elems[..i] == other.elems;
    }

    /** Copy constructor: a new node for every element of `other`, in the same order. */
    constructor Copy(other: List<T>)
      ensures Valid() && linked && Elements() == other.Elements()
    {
      elems := [];
      linked := true;
      new;
      AppendAll(other);
    }

    /** Move constructor as written: a non-empty `other` hands over its nodes and is left
        empty; an empty `other` leaves this list with null sentinel links. */
    constructor Move(other: List<T>)
      requires other.Valid()
      modifies other
      ensures Valid() && Elements() == old(other.Elements()) && (linked <==> old(other.Elements()) != [])
      ensures other.Valid() && other.linked == old(other.linked) && other.Elements() == []
    {
      if other.elems != [] {
        elems := other.elems;
        linked := true;
      } else {
        elems := [];
        linked := false;
      }
      new;
      if other.elems != [] {
        other.elems := [];
      }
    }

    /** Move constructor as evidently intended: the sentinels are linked in both cases. */
    constructor MoveCorrected(other: List<T>)
      requires other.Valid()
      modifies other
      ensures Valid() && linked && Elements() == old(other.Elements())
      ensures other.Valid() && other.linked == old(other.linked) && other.Elements() == []
      ensures Elements() == [] ==> Begin() == End()
    {
      elems := other.elems;
      linked := true;
      new;
      if other.elems != [] {
        other.elems := [];
      }
    }

    /** Copy assignment: nothing on self-assignment; otherwise clear, then copy `other`. */
    method CopyAssign(other: List<T>)
      requires Valid()
      modifies this
      ensures Valid()
      ensures this == other ==> unchanged(this)
      ensures this != other ==> linked && Elements() == other.Elements()
    {
      if this != other {
        Clear();
        AppendAll(other);
      }
    }

    /** Move assignment: nothing on self-assignment; otherwise clear, then take the nodes of
        a non-empty `other`, which is left empty. */
    method MoveAssign(other: List<T>)
      requires Valid() && other.Valid()
      modifies this, other
      ensures this == other ==> unchanged(this)
      ensures this != other ==> (Valid() && linked && Elements() == old(other.Elements())
                                 && other.Valid() && other.linked == old(other.linked)
                                 && other.Elements() == [])
    {
      if this != other {
        Clear();
        if other.elems != [] {
          elems := other.elems;
          other.elems := [];
        }
      }
    }

    /** `begin()`: the node after the head sentinel, null when the sentinels are unlinked. */
    function Begin(): (r: Option<nat>)
      reads this
      requires Valid()
      ensures linked ==> r == Some(0)
      ensures !linked ==> r.None?
    {
      if linked then Some(0) else None
    }

    /** `end()`: the tail sentinel. */
    function End(): (r: Option<nat>)
      reads this
      ensures r == Some(|Elements()|)
    {
      Some(|elems|)
    }

    /** A list move-constructed from an empty list has no elements, yet `begin() != end()`:
        a loop from `begin()` to `end()` dereferences a null node. */
    lemma UnlinkedRange()
      requires Valid() && !linked
      ensures Elements() == [] && Begin() != End()
    {
    }

    /** `empty()`. */
    function IsEmpty(): (r: bool)
      reads this
      ensures r <==> Elements() == []
    {
      elems == []
    }

    /** `size()`. */
    function Size(): (r: nat)
      reads this
      ensures r == |Elements()|
    {
      |elems|
    }

    /** `front()`: the data of the node after the head sentinel. */
    function Front(): (r: T)
      reads this
      requires Elements() != []
      ensures r == Elements()[0]
    {
      elems[0]
    }

    /** `back()`: the data of the node before the tail sentinel. */
    function Back(): (r: T)
      reads this
      requires Elements() != []
      ensures r == Elements()[|Elements()| - 1]
    {
      elems[|elems| - 1]
    }

    /** `clear()`: every node is released and the sentinels are linked to each other. */
    method Clear()
      modifies this
      ensures Valid() && linked && Elements() == []
    {
      elems := [];
      linked := true;
    }

    /** `insert(pos, value)`: a new node between `pos` and its predecessor; the result is an
        iterator to it. */
    method Insert(pos: nat, value: T) returns (r: nat)
      requires Valid() && linked && pos <= |Elements()|
      modifies this`elems
      ensures Valid() && r == pos && |Elements()| == |old(Elements())| + 1
      ensures Elements() == old(Elements())[..pos] + [value] + old(Elements())[pos..]
      ensures Elements()[r] == value
    {
      elems := elems[..pos] + [value] + elems[pos..];
      r := pos;
    }

    /** `erase(pos)`: the result is `pos`'s successor, read before anything changes; on a
        non-empty list the node at `pos` is unlinked. On an empty list `pos` can only be the
        tail, whose successor is null, and nothing changes. */
    method Erase(pos: nat) returns (r: Option<nat>)
      requires Valid() && pos <= |Elements()| && (Elements() != [] ==> pos < |Elements()|)
      modifies this`elems
      ensures Valid()
      ensures old(Elements()) == [] ==> r.None? && Elements() == []
      ensures old(Elements()) != [] ==> (r == Some(pos) && |Elements()| == |old(Elements())| - 1
                                        && Elements() == old(Elements())[..pos] + old(Elements())[pos + 1..])
    {
      if elems == [] {
        return None;
      }
      elems := elems[..pos] + elems[pos + 1..];
      r := Some(pos);
    }

    /** `push_back(value)`. */
    method PushBack(value: T)
      requires Valid() && linked
      modifies this`elems
      ensures Valid() && Elements() == old(Elements()) + [value] && Back() == value
    {
      elems := elems + [value];
    }

    /** `push_front(value)`. */
    method PushFront(value: T)
      requires Valid() && linked
      modifies this`elems
      ensures Valid() && Elements() == [value] + old(Elements()) && Front() == value
    {
      elems := [value] + elems;
    }

    /** `pop_back()`: nothing on an empty list. */
    method PopBack()
      requires Valid()
      modifies this`elems
      ensures Valid()
      ensures old(Elements()) == [] ==> Elements() == []
      ensures old(Elements()) != [] ==> Elements() == old(Elements())[..|old(Elements())| - 1]
    {
      if elems == [] {
        return;
      }
      elems := elems[..|elems| - 1];
    }

    /** `pop_front()`: nothing on an empty list. */
    method PopFront()
      requires Valid()
      modifies this`elems
      ensures Valid()
      ensures old(Elements()) == [] ==> Elements() == []
      ensures old(Elements()) != [] ==> Elements() == old(Elements())[1..]
    {
      if elems == [] {
        return;
      }
      elems := elems[1..];
    }
  }
}

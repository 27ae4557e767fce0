/** The array-backed binary max-heap over a `std::vector` container `c`, with the default
    comparator `std::less`: the parent of every element is at least as large as it. Elements
    are integers, and the container is a sequence the operations reassign. */
module PriorityQueues {

  /** The largest `size_t`. */
  const SizeMax: nat := 0xFFFF_FFFF_FFFF_FFFF

  /** `parent(index)`: `(index - 1) / 2` on `size_t`, so index 0 wraps around. */
  function Parent(index: nat): (r: nat)
    ensures index > 0 ==> r < index && 2 * r + 1 <= index <= 2 * r + 2
    ensures index == 0 ==> r == SizeMax / 2
  {
    if index == 0 then SizeMax / 2 else (index - 1) / 2
  }

  /** `left_child(index)`. */
  function LeftChild(index: nat): (r: nat)
    ensures r > index && Parent(r) == index
  {
    2 * index + 1
  }

  /** `right_child(index)`. */
  function RightChild(index: nat): (r: nat)
    ensures r > index && Parent(r) == index && r == LeftChild(index) + 1
  {
    2 * (index + 1)
  }

  /** The only positions whose parent is `index` are its two children. */
  lemma ChildrenOfParent(index: nat, i: nat)
    requires i > 0 && Parent(i) == index
    ensures i == LeftChild(index) || i == RightChild(index)
  {
  }

  /** The max-heap property under `std::less`: no element compares greater than its parent. */
  ghost predicate IsHeap(s: seq<int>)
  {
    forall i :: 0 < i < |s| ==> s[i] <= s[Parent(i)]
  }

  /** The heap property with position `k` allowed to exceed its parent, while `k`'s children
      are still no greater than that parent: what `upheap(k)` starts from. */
  ghost predicate HeapExceptUp(s: seq<int>, k: nat)
  {
    (forall i :: 0 < i < |s| && i != k ==> s[i] <= s[Parent(i)])
    && (0 < k < |s| ==> forall i :: 0 < i < |s| && Parent(i) == k ==> s[i] <= s[Parent(k)])
  }

  /** The heap property with position `k` allowed to be smaller than its children, which are
      still no greater than `k`'s parent: what `downheap(k)` starts from. */
  ghost predicate HeapExceptDown(s: seq<int>, k: nat)
  {
    (forall i :: 0 < i < |s| && Parent(i) != k ==> s[i] <= s[Parent(i)])
    && (0 < k < |s| ==> forall i :: 0 < i < |s| && Parent(i) == k ==> s[i] <= s[Parent(k)])
  }

  /** `std::swap(c[i], c[j])`. */
  function Swap(s: seq<int>, i: nat, j: nat): (r: seq<int>)
    requires i < |s| && j < |s|
    ensures |r| == |s| && r[i] == s[j] && r[j] == s[i]
    ensures forall k :: 0 <= k < |s| && k != i && k != j ==> r[k] == s[k]
    ensures multiset(r) == multiset(s)
  {
    s[i := s[j]][j := s[i]]
  }

  /** Every element of a heap lies below its top, by following the parents up to the root. */
  lemma {:induction false} BelowTop(s: seq<int>, i: nat)
    requires IsHeap(s) && i < |s|
    ensures s[i] <= s[0]
    decreases i
  {
    if i > 0 {
      BelowTop(s, Parent(i));
    }
  }

  /** One step of `upheap`: swapping `k` with its smaller parent moves the exception up. */
  lemma UpStep(s: seq<int>, k: nat)
    requires 0 < k < |s| && HeapExceptUp(s, k) && s[Parent(k)] < s[k]
    ensures HeapExceptUp(Swap(s, Parent(k), k), Parent(k))
  {
    var p := Parent(k);
    var s' := Swap(s, p, k);
    forall i | 0 < i < |s'| && i != p
      ensures s'[i] <= s'[Parent(i)]
    {
      if i == k {
      } else if Parent(i) == k {
        assert s[i] <= s[p];
      } else if Parent(i) == p {
        assert s[i] <= s[p];
      } else {
        assert s'[i] == s[i] && s'[Parent(i)] == s[Parent(i)];
      }
    }
    if 0 < p {
      forall i | 0 < i < |s'| && Parent(i) == p
        ensures s'[i] <= s'[Parent(p)]
      {
        assert s[p] <= s[Parent(p)];
        if i != k {
          assert s[i] <= s[p];
        }
      }
    }
  }

  /** One step of `downheap`: swapping `k` with its largest child `m`, which exceeds it, moves
      the exception down to `m`. */
  lemma DownStep(s: seq<int>, k: nat, m: nat)
    requires k < |s| && HeapExceptDown(s, k)
    requires m < |s| && Parent(m) == k && m > 0 && s[k] < s[m]
    requires forall i :: 0 < i < |s| && Parent(i) == k ==> s[i] <= s[m]
    ensures HeapExceptDown(Swap(s, k, m), m)
  {
    var s' := Swap(s, k, m);
    forall i | 0 < i < |s'| && Parent(i) != m
      ensures s'[i] <= s'[Parent(i)]
    {
      if i == m {
      } else if Parent(i) == k {
      } else if i == k {
        assert s[m] <= s[Parent(k)];
      } else {
        assert s'[i] == s[i] && s'[Parent(i)] == s[Parent(i)];
      }
    }
    forall i | 0 < i < |s'| && Parent(i) == m
      ensures s'[i] <= s'[Parent(m)]
    {
      assert s[i] <= s[m];
    }
  }

  /** A heap that may only be wrong below `k`, where `k` is no smaller than its children (or
      has none), is a heap. */
  lemma DownDone(s: seq<int>, k: nat)
    requires HeapExceptDown(s, k)
    requires LeftChild(k) < |s| ==> s[LeftChild(k)] <= s[k]
    requires RightChild(k) < |s| ==> s[RightChild(k)] <= s[k]
    ensures IsHeap(s)
  {
    forall i | 0 < i < |s|
      ensures s[i] <= s[Parent(i)]
    {
      if Parent(i) == k {
        ChildrenOfParent(k, i);
      }
    }
  }

  /** Removing the top by moving the last element there leaves only the top out of place. */
  lemma PopShape(s: seq<int>)
    requires IsHeap(s) && |s| > 0
    ensures HeapExceptDown(Swap(s, 0, |s| - 1)[..|s| - 1], 0)
    ensures multiset(Swap(s, 0, |s| - 1)[..|s| - 1]) == multiset(s) - multiset{s[0]}
  {
    var w := Swap(s, 0, |s| - 1);
    assert w == w[..|s| - 1] + [s[0]];
    assert multiset(w) == multiset(w[..|s| - 1]) + multiset{s[0]};
    forall i | 0 < i < |s| - 1 && Parent(i) != 0
      ensures w[i] <= w[Parent(i)]
    {
      assert w[i] == s[i] && w[Parent(i)] == s[Parent(i)];
    }
  }

  class PriorityQueue {
    var c: seq<int>

    ghost predicate Valid()
      reads this
    {
      IsHeap(c)
    }

    /** `PriorityQueue()`: an empty container. */
    constructor Empty()
      ensures Valid() && c == []
    {
      c := [];
    }

    /** `is_internal(index)`: the element at `index` has a left child. */
    function IsInternal(index: nat): (r: bool)
      reads this
      ensures r <==> exists i :: 0 < i < |c| && Parent(i) == index
    {
      assert LeftChild(index) < |c| ==> Parent(LeftChild(index)) == index;
      LeftChild(index) < |c|
    }

    /** `is_leaf(index)`: the element at `index` has no child. */
    function IsLeaf(index: nat): (r: bool)
      reads this
      ensures r <==> forall i :: 0 < i < |c| ==> Parent(i) != index
    {
      assert LeftChild(index) < |c| ==> Parent(LeftChild(index)) == index;
      LeftChild(index) >= |c|
    }

    /** `upheap(index)`: swap the element with its parent while the parent is smaller. */
    method Upheap(index: nat)
      requires index < |c| && HeapExceptUp(c, index)
      modifies this
      ensures Valid() && multiset(c) == old(multiset(c)) && |c| == old(|c|)
    {
      var i: nat := index;
      var parentIndex := Parent(i);
      while i > 0 && c[parentIndex] < c[i]
        invariant i < |c| && parentIndex == Parent(i)
        invariant HeapExceptUp(c, i)
        invariant multiset(c) == old(multiset(c)) && |c| == old(|c|)
        decreases i
      {
        UpStep(c, i);
        c := Swap(c, parentIndex, i);
        i := parentIndex;
        parentIndex := Parent(i);
      }
    }

    /** `downheap(index)`: swap the element with its largest child while that child is larger;
        the right child is examined first, so the left one wins only when strictly larger. */
    method Downheap(index: nat)
      requires HeapExceptDown(c, index)
      modifies this
      ensures Valid() && multiset(c) == old(multiset(c)) && |c| == old(|c|)
    {
      var i: nat := index;
      var invalid := true;
      while !IsLeaf(i) && invalid
        invariant HeapExceptDown(c, i)
        invariant !invalid ==> (LeftChild(i) < |c| ==> c[LeftChild(i)] <= c[i])
                               && (RightChild(i) < |c| ==> c[RightChild(i)] <= c[i])
        invariant multiset(c) == old(multiset(c)) && |c| == old(|c|)
        decreases |c| - i + (if invalid then 1 else 0)
      {
        invalid := false;
        var right := RightChild(i);
        var left := LeftChild(i);
        var maxIndex := i;
        if right < |c| && c[maxIndex] < c[right] {
          invalid := true;
          maxIndex := right;
        }
        if left < |c| && c[maxIndex] < c[left] {
          invalid := true;
          maxIndex := left;
        }
        if invalid {
          forall j | 0 < j < |c| && Parent(j) == i
            ensures c[j] <= c[maxIndex]
          {
            ChildrenOfParent(i, j);
          }
          DownStep(c, i, maxIndex);
          c := Swap(c, i, maxIndex);
          i := maxIndex;
        }
      }
      DownDone(c, i);
    }

    /** `top()`: `c[0]`, which no element exceeds. */
    function Top(): (r: int)
      reads this
      requires Valid() && c != []
      ensures r in c && forall i :: 0 <= i < |c| ==> c[i] <= r
    {
      assert forall i :: 0 <= i < |c| ==> c[i] <= c[0] by {
        forall i | 0 <= i < |c|
          ensures c[i] <= c[0]
        {
          BelowTop(c, i);
        }
      }
      c[0]
    }

    /** `empty()`. */
    function IsEmpty(): (r: bool)
      reads this
      ensures r <==> |c| == 0
    {
      |c| == 0
    }

    /** `size()`. */
    function Size(): (r: nat)
      reads this
      ensures r == |c|
    {
      |c|
    }

    /** `push(value)`, both overloads: append, then `upheap` from the last position. */
    method Push(value: int)
      requires Valid()
      modifies this
      ensures Valid() && multiset(c) == old(multiset(c)) + multiset{value} && |c| == old(|c|) + 1
    {
      c := c + [value];
      Upheap(|c| - 1);
    }

    /** `pop()`: nothing when empty; otherwise swap the top with the last element, drop it and
        `downheap` from the root. */
    method Pop()
      requires Valid()
      modifies this
      ensures Valid()
      ensures old(c) == [] ==> c == []
      ensures old(c) != [] ==> (multiset(c) == old(multiset(c)) - multiset{old(c[0])}
                                && |c| == old(|c|) - 1)
    {
      if c == [] {
        return;
      }
      var rest := Swap(c, 0, |c| - 1)[..|c| - 1];
      PopShape(c);
      c := rest;
      Downheap(0);
    }
  }
}

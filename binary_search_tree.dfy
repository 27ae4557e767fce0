/** The binary search tree map: a tree of key-value nodes ordered by `std::less` on the
    keys, which are integers here, together with the size counter `_size`. The nodes are a
    recursive datatype; the recursive `insert`/`erase` that relink `node_ptr&` return the
    rebuilt subtree instead, and the class holds `_root` and `_size`. */
module BinarySearchTrees {
  import opened Wrappers

  /** 2^64: `_size` is a `size_t`. */
  const Word: nat := 0x1_0000_0000_0000_0000

  datatype Tree<V> = Leaf | Node(key: int, value: V, left: Tree<V>, right: Tree<V>)

  /** The keys stored in `t`. */
  function Keys<V>(t: Tree<V>): set<int>
  {
    match t
    case Leaf => {}
    case Node(k, _, l, r) => Keys(l) + Keys(r) + {k}
  }

  /** The ordering invariant: every key on the left of a node is smaller than its key and
      every key on its right larger. */
  ghost predicate IsBst<V>(t: Tree<V>)
  {
    match t
    case Leaf => true
    case Node(k, _, l, r) =>
      IsBst(l) && IsBst(r) && (forall j :: j in Keys(l) ==> j < k) && (forall j :: j in Keys(r) ==> k < j)
  }

  /** The map a search tree represents. */
  ghost function Entries<V>(t: Tree<V>): (m: map<int, V>)
    ensures m.Keys == Keys(t)
  {
    match t
    case Leaf => map[]
    case Node(k, v, l, r) => (Entries(l) + Entries(r))[k := v]
  }

  /** Private `contains(x, t)`: compares with `==` first, then descends by `comp`. */
  function Contains<V>(t: Tree<V>, x: int): (r: bool)
    ensures IsBst(t) ==> (r <==> x in Keys(t))
  {
    match t
    case Leaf => false
    case Node(k, _, l, rt) =>
      if k == x then true
      else if k < x then Contains(rt, x)
      else Contains(l, x)
  }

  /** Const private `find(key, t)`: the element of the node holding `key`, `None` for the
      null pointer. */
  function FindNode<V>(t: Tree<V>, key: int): (r: Option<(int, V)>)
    ensures IsBst(t) ==> (r.Some? <==> key in Keys(t))
    ensures r.Some? ==> r.value.0 == key
    ensures IsBst(t) && r.Some? ==> Entries(t)[key] == r.value.1
  {
    match t
    case Leaf => None
    case Node(k, v, l, rt) =>
      if k < key then FindNode(rt, key)
      else if key < k then FindNode(l, key)
      else Some((k, v))
  }

  /** Private `min(t)`: the element of the leftmost node. */
  function MinNode<V>(t: Tree<V>): (r: (int, V))
    requires t.Node?
    ensures r.0 in Keys(t)
    ensures IsBst(t) ==> (forall j :: j in Keys(t) ==> r.0 <= j) && Entries(t)[r.0] == r.1
  {
    if t.left.Node? then MinNode(t.left) else (t.key, t.value)
  }

  /** Private `max(t)`: the element of the rightmost node. */
  function MaxNode<V>(t: Tree<V>): (r: (int, V))
    requires t.Node?
    ensures r.0 in Keys(t)
    ensures IsBst(t) ==> (forall j :: j in Keys(t) ==> j <= r.0) && Entries(t)[r.0] == r.1
  {
    if t.right.Node? then MaxNode(t.right) else (t.key, t.value)
  }

  /** `copyConstruct(node)`: a new node for every node, children copied recursively; the copy
      has the same shape and the same elements as the original. */
  function CopyConstruct<V>(t: Tree<V>): (r: Tree<V>)
    ensures r == t
  {
    match t
    case Leaf => Leaf
    case Node(k, v, l, rt) => Node(k, v, CopyConstruct(l), CopyConstruct(rt))
  }

  /** Private `insert(x, t)`: descend by `comp` and hang a new node where the search falls
      off the tree, or overwrite the value of the node holding the key. `added` says whether
      `_size` was incremented. */
  method InsertInto<V>(k: int, v: V, t: Tree<V>) returns (r: Tree<V>, added: bool)
    requires IsBst(t)
    ensures IsBst(r)
    ensures Entries(r) == Entries(t)[k := v] && Keys(r) == Keys(t) + {k}
    ensures added <==> k !in Keys(t)
    decreases t
  {
    if t.Leaf? {
      return Node(k, v, Leaf, Leaf), true;
    }
    if t.key < k {
      var right;
      if t.right.Leaf? {
        right, added := Node(k, v, Leaf, Leaf), true;
      } else {
        right, added := InsertInto(k, v, t.right);
      }
      InsertedRight(t, k, v, right);
      r := Node(t.key, t.value, t.left, right);
    } else if k < t.key {
      var left;
      if t.left.Leaf? {
        left, added := Node(k, v, Leaf, Leaf), true;
      } else {
        left, added := InsertInto(k, v, t.left);
      }
      InsertedLeft(t, k, v, left);
      r := Node(t.key, t.value, left, t.right);
    } else {
      r, added := Node(t.key, v, t.left, t.right), false;
    }
  }

  /** Private `erase(x, t)`. A node with two children takes the element of the minimum of
      its right subtree, which is first erased by a recursive call on the same node; a node
      with at most one child is replaced by that child. */
  method EraseFrom<V>(x: int, t: Tree<V>) returns (r: Tree<V>)
    requires IsBst(t)
    ensures IsBst(r)
    ensures Entries(r) == Entries(t) - {x} && Keys(r) == Keys(t) - {x}
    ensures t.Node? && t.key < x ==>
              r.Node? && r.key == t.key && r.value == t.value && r.left == t.left
              && Entries(r.right) == Entries(t.right) - {x}
    decreases t, if t.Node? && t.key == x then 1 else 0
  {
    if t.Leaf? {
      return Leaf;
    }
    if t.key < x {
      var right := EraseFrom(x, t.right);
      r := Node(t.key, t.value, t.left, right);
      RemoveRight(Entries(t.left), Entries(t.right), t.key, t.value, x);
    } else if x < t.key {
      var left := EraseFrom(x, t.left);
      r := Node(t.key, t.value, left, t.right);
      RemoveLeft(Entries(t.left), Entries(t.right), t.key, t.value, x);
    } else if t.right.Node? && t.left.Node? {
      var m := MinNode(t.right);
      r := EraseFrom(m.0, t);
      MinReplacesRoot(t, m.0, m.1, r.right);
      r := Node(m.0, m.1, r.left, r.right);
      ReplaceRoot(Entries(t.left), Entries(t.right), t.key, t.value, m.0);
    } else {
      r := if t.left.Node? then t.left else t.right;
      RemoveRoot(Entries(t.left), Entries(t.right), t.key, t.value);
    }
  }

  /** Binding `k` in the right subtree of `t`, whose key is smaller, binds it in `t`. */
  lemma InsertedRight<V>(t: Tree<V>, k: int, v: V, right: Tree<V>)
    requires IsBst(t) && t.Node? && t.key < k
    requires IsBst(right) && Entries(right) == Entries(t.right)[k := v] && Keys(right) == Keys(t.right) + {k}
    ensures IsBst(Node(t.key, t.value, t.left, right))
    ensures Entries(Node(t.key, t.value, t.left, right)) == Entries(t)[k := v]
    ensures Keys(Node(t.key, t.value, t.left, right)) == Keys(t) + {k}
  {
    UpdateRight(Entries(t.left), Entries(t.right), t.key, t.value, k, v);
  }

  /** Binding `k` in the left subtree of `t`, whose key is larger, binds it in `t`. */
  lemma InsertedLeft<V>(t: Tree<V>, k: int, v: V, left: Tree<V>)
    requires IsBst(t) && t.Node? && k < t.key
    requires IsBst(left) && Entries(left) == Entries(t.left)[k := v] && Keys(left) == Keys(t.left) + {k}
    ensures IsBst(Node(t.key, t.value, left, t.right))
    ensures Entries(Node(t.key, t.value, left, t.right)) == Entries(t)[k := v]
    ensures Keys(Node(t.key, t.value, left, t.right)) == Keys(t) + {k}
  {
    UpdateLeft(Entries(t.left), Entries(t.right), t.key, t.value, k, v);
  }

  /** The minimum `m` of the right subtree, erased from it, can take the place of the key of
      a node with two children. */
  lemma MinReplacesRoot<V>(t: Tree<V>, m: int, w: V, right: Tree<V>)
    requires IsBst(t) && t.Node? && t.right.Node? && m == MinNode(t.right).0
    requires IsBst(right) && Keys(right) == Keys(t.right) - {m}
    ensures IsBst(Node(m, w, t.left, right))
  {
    assert forall j :: j in Keys(t.left) ==> j < m by {
      assert m in Keys(t.right);
    }
  }

  /** Removing a key of the right subtree under a node. */
  lemma RemoveRight<V>(a: map<int, V>, b: map<int, V>, k: int, v: V, x: int)
    requires x != k && x !in a
    ensures (a + (b - {x}))[k := v] == (a + b)[k := v] - {x}
  {
  }

  /** Removing a key of the left subtree under a node. */
  lemma RemoveLeft<V>(a: map<int, V>, b: map<int, V>, k: int, v: V, x: int)
    requires x != k && x !in b
    ensures ((a - {x}) + b)[k := v] == (a + b)[k := v] - {x}
  {
  }

  /** Binding a key in the right subtree under a node. */
  lemma UpdateRight<V>(a: map<int, V>, b: map<int, V>, k: int, v: V, x: int, w: V)
    requires x != k
    ensures (a + b[x := w])[k := v] == (a + b)[k := v][x := w]
  {
  }

  /** Binding a key in the left subtree under a node. */
  lemma UpdateLeft<V>(a: map<int, V>, b: map<int, V>, k: int, v: V, x: int, w: V)
    requires x != k && x !in b
    ensures (a[x := w] + b)[k := v] == (a + b)[k := v][x := w]
  {
  }

  /** Removing the key of a node leaves the union of its subtrees. */
  lemma RemoveRoot<V>(a: map<int, V>, b: map<int, V>, k: int, v: V)
    requires k !in a && k !in b
    ensures (a + b)[k := v] - {k} == a + b
  {
  }

  /** Replacing the key of a node by the minimum `m` of its right subtree. */
  lemma ReplaceRoot<V>(a: map<int, V>, b: map<int, V>, k: int, v: V, m: int)
    requires k !in a && k !in b && m !in a && m in b
    ensures (a + (b - {m}))[m := b[m]] == (a + b)[k := v] - {k}
  {
  }

  /** `_size--` on a `size_t`: zero wraps to 2^64 - 1. */
  function DecrementedSize(size: nat): (r: nat)
    ensures size == 0 ==> r == Word - 1
    ensures size > 0 ==> r + 1 == size
  {
    if size == 0 then Word - 1 else size - 1
  }

  /** `_size++` on a `size_t`: 2^64 - 1 wraps to zero. */
  function IncrementedSize(size: nat): (r: nat)
    requires size < Word
    ensures r < Word
    ensures size + 1 < Word ==> r == size + 1
    ensures size + 1 == Word ==> r == 0
  {
    if size + 1 == Word then 0 else size + 1
  }

  /** The two `size_t` steps undo each other on every counter value, the wrapping ones
      included: erasing from an empty tree and then inserting a new key brings `_size` back
      to zero. */
  lemma SizeStepsInverse(size: nat)
    requires size < Word
    ensures DecrementedSize(size) < Word
    ensures IncrementedSize(DecrementedSize(size)) == size
    ensures DecrementedSize(IncrementedSize(size)) == size
  {
  }

  class BinarySearchTree<V> {
    var root: Tree<V>
    var size: nat

    /** The tree is ordered and `_size` fits a `size_t`. */
    ghost predicate Valid()
      reads this
    {
      IsBst(root) && size < Word
    }

    /** `_size` counts the nodes. */
    ghost predicate Counted()
      reads this
    {
      size == |Keys(root)|
    }

    /** The map the tree holds. */
    ghost function Contents(): (m: map<int, V>)
      reads this
    {
      Entries(root)
    }

    /** `BinarySearchTree()`. */
    constructor Empty()
      ensures Valid() && Counted() && Contents() == map[]
    {
      root := Leaf;
      size := 0;
    }

    /** Copy constructor: `copyConstruct` of the other root, and its size. */
    constructor Copy(rhs: BinarySearchTree<V>)
      requires rhs.Valid()
      ensures Valid() && root == rhs.root && size == rhs.size
      ensures rhs.Counted() ==> Counted()
    {
      root := CopyConstruct(rhs.root);
      size := rhs.size;
    }

    /** Move constructor: takes the other root and size and leaves `rhs` empty. */
    constructor Move(rhs: BinarySearchTree<V>)
      requires rhs.Valid()
      modifies rhs
      ensures Valid() && root == old(rhs.root) && size == old(rhs.size)
      ensures rhs.Valid() && rhs.Counted() && rhs.root == Leaf
    {
      root := rhs.root;
      size := rhs.size;
      new;
      rhs.root := Leaf;
      rhs.size := 0;
    }

    /** Copy assignment: nothing on self-assignment; otherwise a copy of `rhs`. */
    method CopyAssign(rhs: BinarySearchTree<V>)
      requires Valid() && rhs.Valid()
      modifies this
      ensures Valid() && root == old(rhs.root) && size == old(rhs.size)
    {
      if this != rhs {
        root := CopyConstruct(rhs.root);
        size := rhs.size;
      }
    }

    /** Move assignment: nothing on self-assignment; otherwise take `rhs`'s tree and leave
        it empty. */
    method MoveAssign(rhs: BinarySearchTree<V>)
      requires Valid() && rhs.Valid()
      modifies this, rhs
      ensures this == rhs ==> unchanged(this)
      ensures this != rhs ==> (Valid() && root == old(rhs.root) && size == old(rhs.size)
                               && rhs.Valid() && rhs.Counted() && rhs.root == Leaf)
    {
      if this != rhs {
        root := rhs.root;
        size := rhs.size;
        rhs.root := Leaf;
        rhs.size := 0;
      }
    }

    /** `min()`: the element with the smallest key; the tree must not be empty. */
    function Min(): (r: (int, V))
      reads this
      requires Valid() && root.Node?
      ensures r.0 in Contents() && Contents()[r.0] == r.1
      ensures forall j :: j in Contents() ==> r.0 <= j
    {
      MinNode(root)
    }

    /** `max()`: the element with the largest key; the tree must not be empty. */
    function Max(): (r: (int, V))
      reads this
      requires Valid() && root.Node?
      ensures r.0 in Contents() && Contents()[r.0] == r.1
      ensures forall j :: j in Contents() ==> j <= r.0
    {
      MaxNode(root)
    }

    /** `root()`: the element of the root node; the tree must not be empty. */
    function RootElement(): (r: (int, V))
      reads this
      requires Valid() && root.Node?
      ensures r.0 in Contents() && Contents()[r.0] == r.1
      ensures forall j :: j in Keys(root.left) ==> j < r.0
      ensures forall j :: j in Keys(root.right) ==> r.0 < j
    {
      (root.key, root.value)
    }

    /** `contains(x)`. */
    function ContainsKey(x: int): (r: bool)
      reads this
      requires Valid()
      ensures r <==> x in Contents()
    {
      Contains(root, x)
    }

    /** Const `find(key)`: the value stored under `key`, which must be present (a missing key
        dereferences the null pointer `find` returns). */
    function Find(key: int): (r: V)
      reads this
      requires Valid() && key in Contents()
      ensures r == Contents()[key]
    {
      FindNode(root, key).value.1
    }

    /** `empty()`: reads `_size`. */
    function IsEmpty(): (r: bool)
      reads this
      ensures r <==> size == 0
      ensures Counted() ==> (r <==> Contents() == map[])
    {
      size == 0
    }

    /** `size()`. */
    function Size(): (r: nat)
      reads this
      ensures Counted() ==> r == |Keys(root)|
    {
      size
    }

    /** `clear()`: every node released, `_size` zero. */
    method Clear()
      modifies this
      ensures Valid() && Counted() && Contents() == map[]
    {
      root := Leaf;
      size := 0;
    }

    /** `insert(x)`, both overloads: bind `k` to `v`, counting a new node with `_size++`,
        which wraps at 2^64. A correct count stays correct unless it wraps. */
    method Insert(k: int, v: V)
      requires Valid()
      modifies this
      ensures Valid() && Contents() == old(Contents())[k := v]
      ensures size == if k in old(Contents()) then old(size) else IncrementedSize(old(size))
      ensures old(Counted()) && (k in old(Contents()) || old(size) + 1 < Word) ==> Counted()
    {
      var added;
      root, added := InsertInto(k, v, root);
      if added {
        size := IncrementedSize(size);
      }
      assert Keys(root) == old(Keys(root)) + {k};
    }

    /** `erase(x)` as written: the key is removed if present, but `_size` is decremented
        whether or not it was, so erasing an absent key miscounts. */
    method Erase(x: int)
      requires Valid()
      modifies this
      ensures Valid() && Contents() == old(Contents()) - {x}
      ensures size == DecrementedSize(old(size))
      ensures old(Counted()) && x !in old(Contents()) ==> !Counted()
    {
      root := EraseFrom(x, root);
      size := DecrementedSize(size);
    }

    /** `erase(x)` as evidently intended: `_size` is decremented only when a node was
        removed, so the count stays exact. */
    method EraseCorrected(x: int)
      requires Valid()
      modifies this
      ensures Valid() && Contents() == old(Contents()) - {x}
      ensures size == if x in old(Contents()) then DecrementedSize(old(size)) else old(size)
      ensures old(Counted()) ==> Counted()
    {
      var present := Contains(root, x);
      root := EraseFrom(x, root);
      if present {
        size := DecrementedSize(size);
      }
      assert Keys(root) == old(Keys(root)) - {x};
    }
  }

  /** An instance of `BinarySearchTree.Erase`, whose size afterwards is
      `DecrementedSize(old(size))` whether or not the key was present: erasing from an empty
      tree leaves no node but a size of 2^64 - 1. */
  lemma EraseEmptyMiscounts<V>()
    ensures Keys<V>(Leaf) == {} && DecrementedSize(|Keys<V>(Leaf)|) == Word - 1
  {
  }
}

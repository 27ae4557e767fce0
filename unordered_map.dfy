/** A separate-chaining hash map over a fixed number of buckets, with a cached reference to
    the first node in traversal order.

    Nodes live in an arena: a sequence of slots that only ever grows. A bucket holds the slot
    of the front node of its chain (or nothing), and every node holds the slot of its
    same-bucket successor. Unlinking a node leaves its slot in the arena with its old
    contents, which is how the model represents a freed node that a stale `_head` still
    points to. */
module UnorderedMaps {
  import opened Wrappers
  import opened Chains

  /** `HashNode`: one (key, value) pair and the link to the next node of its chain. */
  datatype HashNode<K, V> = HashNode(key: K, value: V, next: Option<nat>)

  /** `_range_hash`: the bucket index of a hash code. */
  function RangeHash(code: nat, bucketCount: nat): (r: nat)
    requires bucketCount > 0
    ensures r < bucketCount
    ensures code < bucketCount ==> r == code
  {
    code % bucketCount
  }

  /** Chain `c` over `nodes` and chain `c'` over `nodes'` hold the same (key, value) pairs in
      the same order. */
  ghost predicate SamePairs<K, V>(nodes: seq<HashNode<K, V>>, c: seq<nat>,
                                  nodes': seq<HashNode<K, V>>, c': seq<nat>)
  {
    && |c| == |c'|
    && forall j :: 0 <= j < |c| ==>
         c[j] < |nodes| && c'[j] < |nodes'| &&
         nodes[c[j]].key == nodes'[c'[j]].key && nodes[c[j]].value == nodes'[c'[j]].value
  }

  /** Every slot of `nodes'` holds the (key, value) pair it held in `nodes`: at most the
      links changed. */
  ghost predicate PairsKept<K, V>(nodes: seq<HashNode<K, V>>, nodes': seq<HashNode<K, V>>)
  {
    && |nodes'| == |nodes|
    && forall s :: 0 <= s < |nodes| ==> nodes'[s].key == nodes[s].key && nodes'[s].value == nodes[s].value
  }

  /** `c` is the chain of bucket `b` of `n`: the slots reached from `first` by following the
      `next` links until null, each holding a key that hashes to `b`, no key twice. */
  ghost predicate ChainOk<K, V>(nodes: seq<HashNode<K, V>>, first: Option<nat>, c: seq<nat>,
                                b: nat, n: nat, hash: K -> nat)
    requires n > 0
  {
    && first == (if c == [] then None else Some(c[0]))
    && (forall j :: 0 <= j < |c| ==> c[j] < |nodes|)
    && (forall j {:trigger nodes[c[j]].next} ::
          0 <= j < |c| ==> nodes[c[j]].next == (if j + 1 < |c| then Some(c[j + 1]) else None))
    && (forall j {:trigger nodes[c[j]].key} :: 0 <= j < |c| ==> hash(nodes[c[j]].key) % n == b)
    && (forall i, j {:trigger nodes[c[i]].key, nodes[c[j]].key} ::
          0 <= i < j < |c| ==> nodes[c[i]].key != nodes[c[j]].key)
  }

  /** The bucket array `bs` and the arena `nodes` represent the chains `cs`. */
  ghost predicate WellFormed<K, V>(nodes: seq<HashNode<K, V>>, bs: seq<Option<nat>>,
                                   cs: seq<seq<nat>>, hash: K -> nat)
  {
    && |bs| == |cs| > 0
    && forall b {:trigger ChainOk(nodes, bs[b], cs[b], b, |cs|, hash)} ::
         0 <= b < |cs| ==> ChainOk(nodes, bs[b], cs[b], b, |cs|, hash)
  }

  /** What a well-formed representation says about element `j` of chain `b`. */
  lemma ChainAt<K, V>(nodes: seq<HashNode<K, V>>, bs: seq<Option<nat>>,
                      cs: seq<seq<nat>>, hash: K -> nat, b: nat, j: nat)
    requires WellFormed(nodes, bs, cs, hash) && b < |cs| && j < |cs[b]|
    ensures cs[b][j] < |nodes| && hash(nodes[cs[b][j]].key) % |cs| == b
    ensures nodes[cs[b][j]].next == (if j + 1 < |cs[b]| then Some(cs[b][j + 1]) else None)
  {
    assert ChainOk(nodes, bs[b], cs[b], b, |cs|, hash);
  }

  /** What copying element `k` of chain `b` relies on: its key lands in bucket `b` and differs
      from the keys before it, and its `next` names the element after it. */
  lemma CopySource<K, V>(nodes: seq<HashNode<K, V>>, bs: seq<Option<nat>>,
                         cs: seq<seq<nat>>, hash: K -> nat, b: nat, k: nat)
    requires WellFormed(nodes, bs, cs, hash) && b < |cs| && k < |cs[b]|
    ensures forall j :: 0 <= j < |cs[b]| ==> cs[b][j] < |nodes|
    ensures hash(nodes[cs[b][k]].key) % |cs| == b
    ensures forall j :: 0 <= j < k ==> nodes[cs[b][j]].key != nodes[cs[b][k]].key
    ensures nodes[cs[b][k]].next == (if k + 1 < |cs[b]| then Some(cs[b][k + 1]) else None)
  {
    assert ChainOk(nodes, bs[b], cs[b], b, |cs|, hash);
  }

  /** The bucket head names the first element of its chain. */
  lemma BucketHead<K, V>(nodes: seq<HashNode<K, V>>, bs: seq<Option<nat>>,
                         cs: seq<seq<nat>>, hash: K -> nat, b: nat)
    requires WellFormed(nodes, bs, cs, hash) && b < |cs|
    ensures bs[b] == (if cs[b] == [] then None else Some(cs[b][0]))
  {
    assert ChainOk(nodes, bs[b], cs[b], b, |cs|, hash);
  }

  /** Every slot that some chain holds is in the arena. */
  lemma SlotsInArena<K, V>(nodes: seq<HashNode<K, V>>, bs: seq<Option<nat>>,
                           cs: seq<seq<nat>>, hash: K -> nat, p: nat)
    requires WellFormed(nodes, bs, cs, hash) && p < |Flatten(cs)|
    ensures Flatten(cs)[p] < |nodes|
  {
    var b, j := FlattenLocate(cs, p);
    FlattenAt(cs, b, j);
    assert ChainOk(nodes, bs[b], cs[b], b, |cs|, hash);
  }

  /** A node's key decides its bucket, so no slot is on two chains, no slot is twice on one
      chain, and no key occurs twice in the whole traversal. */
  lemma {:induction false} KeysDistinct<K, V>(nodes: seq<HashNode<K, V>>, bs: seq<Option<nat>>,
                                              cs: seq<seq<nat>>, hash: K -> nat, p: nat, q: nat)
    requires WellFormed(nodes, bs, cs, hash)
    requires p < q < |Flatten(cs)|
    ensures Flatten(cs)[p] < |nodes| && Flatten(cs)[q] < |nodes|
    ensures nodes[Flatten(cs)[p]].key != nodes[Flatten(cs)[q]].key
  {
    var b1, j1 := FlattenLocate(cs, p);
    var b2, j2 := FlattenLocate(cs, q);
    FlattenAt(cs, b1, j1);
    FlattenAt(cs, b2, j2);
    assert ChainOk(nodes, bs[b1], cs[b1], b1, |cs|, hash);
    assert ChainOk(nodes, bs[b2], cs[b2], b2, |cs|, hash);
    if b1 == b2 {
      assert j1 < j2;
      assert nodes[cs[b1][j1]].key != nodes[cs[b1][j2]].key;
    }
  }

  /** Corollary: distinct traversal positions hold distinct slots. */
  lemma SlotsDistinct<K, V>(nodes: seq<HashNode<K, V>>, bs: seq<Option<nat>>,
                            cs: seq<seq<nat>>, hash: K -> nat, p: nat, q: nat)
    requires WellFormed(nodes, bs, cs, hash)
    requires p < |Flatten(cs)| && q < |Flatten(cs)| && p != q
    ensures Flatten(cs)[p] != Flatten(cs)[q]
  {
    if p < q { KeysDistinct(nodes, bs, cs, hash, p, q); } else { KeysDistinct(nodes, bs, cs, hash, q, p); }
  }

  /** Changing slots that no chain other than chain `b` holds leaves the other chains intact. */
  lemma OtherChainsKept<K, V>(nodes: seq<HashNode<K, V>>, nodes': seq<HashNode<K, V>>,
                              bs: seq<Option<nat>>, bs': seq<Option<nat>>,
                              cs: seq<seq<nat>>, hash: K -> nat, b: nat)
    requires WellFormed(nodes, bs, cs, hash) && b < |cs| && |bs'| == |bs|
    requires |nodes| <= |nodes'|
    requires forall s :: 0 <= s < |nodes| && hash(nodes[s].key) % |cs| != b ==> nodes'[s] == nodes[s]
    requires forall x :: 0 <= x < |bs| && x != b ==> bs'[x] == bs[x]
    ensures forall x :: 0 <= x < |cs| && x != b ==> ChainOk(nodes', bs'[x], cs[x], x, |cs|, hash)
  {
    forall x | 0 <= x < |cs| && x != b
      ensures ChainOk(nodes', bs'[x], cs[x], x, |cs|, hash)
    {
      assert ChainOk(nodes, bs[x], cs[x], x, |cs|, hash);
      assert forall j :: 0 <= j < |cs[x]| ==> nodes'[cs[x][j]] == nodes[cs[x][j]];
    }
  }

  /** Prepending a new node to chain `b` keeps the representation well formed, and the new
      slot enters the traversal just before the old front of chain `b`. */
  lemma PrependKeeps<K, V>(nodes: seq<HashNode<K, V>>, bs: seq<Option<nat>>,
                           cs: seq<seq<nat>>, hash: K -> nat, b: nat, key: K, value: V)
    requires WellFormed(nodes, bs, cs, hash) && b < |cs|
    requires hash(key) % |cs| == b
    requires forall j :: 0 <= j < |cs[b]| ==> cs[b][j] < |nodes| && nodes[cs[b][j]].key != key
    ensures WellFormed(nodes + [HashNode(key, value, bs[b])], bs[b := Some(|nodes|)],
                       cs[b := [|nodes|] + cs[b]], hash)
    ensures |Concat(cs, 0, b)| <= |Flatten(cs)|
    ensures var p := |Concat(cs, 0, b)|;
      Flatten(cs[b := [|nodes|] + cs[b]]) == Flatten(cs)[..p] + [|nodes|] + Flatten(cs)[p..]
  {
    var nodes', bs', cs' := nodes + [HashNode(key, value, bs[b])], bs[b := Some(|nodes|)], cs[b := [|nodes|] + cs[b]];
    OtherChainsKept(nodes, nodes', bs, bs', cs, hash, b);
    assert ChainOk(nodes, bs[b], cs[b], b, |cs|, hash);
    PrependChain(nodes, bs[b], cs[b], b, |cs|, hash, key, value);
    forall x | 0 <= x < |cs'|
      ensures ChainOk(nodes', bs'[x], cs'[x], x, |cs'|, hash)
    {
      if x != b {
        assert cs'[x] == cs[x];
      }
    }
    PrependFlat(cs, b, |nodes|);
  }

  /** A slot put in front of chain `b` enters the traversal just before the old front. */
  lemma PrependFlat(cs: seq<seq<nat>>, b: nat, s: nat)
    requires b < |cs|
    ensures |Concat(cs, 0, b)| <= |Flatten(cs)|
    ensures var p := |Concat(cs, 0, b)|;
      Flatten(cs[b := [s] + cs[b]]) == Flatten(cs)[..p] + [s] + Flatten(cs)[p..]
  {
    var c := cs[b][..0] + [s] + cs[b][0..];
    assert c == [s] + cs[b] by {
      assert cs[b][..0] == [] && cs[b][0..] == cs[b];
    }
    FlattenInsertAt(cs, b, 0, s);
    var p := |Concat(cs, 0, b)|;
    assert Flatten(cs[b := c]) == Flatten(cs)[..p + 0] + [s] + Flatten(cs)[p + 0..];
  }

  /** A new front node for chain `c` of bucket `b`, linked to the old front. */
  lemma PrependChain<K, V>(nodes: seq<HashNode<K, V>>, first: Option<nat>, c: seq<nat>,
                           b: nat, n: nat, hash: K -> nat, key: K, value: V)
    requires n > 0 && ChainOk(nodes, first, c, b, n, hash) && hash(key) % n == b
    requires forall j :: 0 <= j < |c| ==> nodes[c[j]].key != key
    ensures ChainOk(nodes + [HashNode(key, value, first)], Some(|nodes|), [|nodes|] + c, b, n, hash)
  {
    var nodes', c' := nodes + [HashNode(key, value, first)], [|nodes|] + c;
    forall j | 0 <= j < |c'|
      ensures c'[j] < |nodes'|
      ensures nodes'[c'[j]].next == (if j + 1 < |c'| then Some(c'[j + 1]) else None)
      ensures hash(nodes'[c'[j]].key) % n == b
    {
      if j > 0 {
        assert c'[j] == c[j - 1] && nodes'[c'[j]] == nodes[c[j - 1]];
        assert j < |c| ==> c'[j + 1] == c[j];
      }
    }
    assert forall i, j :: 0 <= i < j < |c'| ==> nodes'[c'[i]].key != nodes'[c'[j]].key;
  }

  /** Overwriting the value of a slot keeps the representation well formed. */
  lemma SetValueKeeps<K, V>(nodes: seq<HashNode<K, V>>, bs: seq<Option<nat>>,
                            cs: seq<seq<nat>>, hash: K -> nat, s: nat, value: V)
    requires WellFormed(nodes, bs, cs, hash) && s < |nodes|
    ensures WellFormed(nodes[s := nodes[s].(value := value)], bs, cs, hash)
  {
    var nodes' := nodes[s := nodes[s].(value := value)];
    forall x | 0 <= x < |cs|
      ensures ChainOk(nodes', bs[x], cs[x], x, |cs|, hash)
    {
      assert ChainOk(nodes, bs[x], cs[x], x, |cs|, hash);
    }
  }

  /** Element `i` of a chain with element `j` dropped. */
  lemma DropAt(c: seq<nat>, j: nat, i: nat)
    requires j < |c| && i < |c| - 1
    ensures (c[..j] + c[j + 1..])[i] == if i < j then c[i] else c[i + 1]
  {
  }

  /** Unlinking element `j > 0` of a chain, by pointing its predecessor at its successor,
      leaves every link of the shortened chain right. */
  lemma UnlinkAfterLinks<K, V>(nodes: seq<HashNode<K, V>>, c: seq<nat>, j: nat, i: nat)
    requires 0 < j < |c| && i < |c| - 1
    requires forall k :: 0 <= k < |c| ==> c[k] < |nodes|
    requires forall k :: 0 <= k < |c| ==> nodes[c[k]].next == (if k + 1 < |c| then Some(c[k + 1]) else None)
    requires forall k, l :: 0 <= k < l < |c| ==> nodes[c[k]].key != nodes[c[l]].key
    ensures var nodes', c' := nodes[c[j - 1] := nodes[c[j - 1]].(next := nodes[c[j]].next)], c[..j] + c[j + 1..];
      nodes'[c'[i]].next == (if i + 1 < |c'| then Some(c'[i + 1]) else None)
  {
    var nodes', c' := nodes[c[j - 1] := nodes[c[j - 1]].(next := nodes[c[j]].next)], c[..j] + c[j + 1..];
    DropAt(c, j, i);
    if i + 1 < |c'| {
      DropAt(c, j, i + 1);
    }
    if i == j - 1 {
      assert nodes[c[j]].next == (if j + 1 < |c| then Some(c[j + 1]) else None);
    } else if i < j {
      assert nodes[c[i]].key != nodes[c[j - 1]].key;
      assert nodes[c[i]].next == (if i + 1 < |c| then Some(c[i + 1]) else None);
    } else {
      assert nodes[c[j - 1]].key != nodes[c[i + 1]].key;
      assert nodes[c[i + 1]].next == (if i + 2 < |c| then Some(c[i + 2]) else None);
    }
  }

  /** Dropping the front of a chain, by pointing the bucket at its successor, keeps that
      chain well formed. */
  lemma UnlinkFrontOk<K, V>(nodes: seq<HashNode<K, V>>, first: Option<nat>, c: seq<nat>,
                            b: nat, n: nat, hash: K -> nat)
    requires n > 0 && ChainOk(nodes, first, c, b, n, hash) && c != []
    ensures ChainOk(nodes, nodes[c[0]].next, c[1..], b, n, hash)
  {
    var c' := c[1..];
    forall i | 0 <= i < |c'|
      ensures c'[i] == c[i + 1]
      ensures nodes[c'[i]].next == (if i + 1 < |c'| then Some(c'[i + 1]) else None)
    {
      assert nodes[c[i + 1]].next == (if i + 2 < |c| then Some(c[i + 2]) else None);
    }
    forall i, k | 0 <= i < k < |c'|
      ensures nodes[c'[i]].key != nodes[c'[k]].key
    {
      assert nodes[c[i + 1]].key != nodes[c[k + 1]].key;
    }
    assert nodes[c[0]].next == (if 1 < |c| then Some(c[1]) else None);
  }

  /** Dropping element `j` of a chain keeps every key in bucket `b`. */
  lemma UnlinkAfterBucket<K, V>(nodes: seq<HashNode<K, V>>, c: seq<nat>, b: nat, n: nat,
                                hash: K -> nat, j: nat, i: nat)
    requires n > 0 && 0 < j < |c| && i < |c| - 1
    requires forall x :: 0 <= x < |c| ==> c[x] < |nodes|
    requires forall x {:trigger nodes[c[x]].key} :: 0 <= x < |c| ==> hash(nodes[c[x]].key) % n == b
    ensures var nodes', c' := nodes[c[j - 1] := nodes[c[j - 1]].(next := nodes[c[j]].next)], c[..j] + c[j + 1..];
      c'[i] < |nodes'| && hash(nodes'[c'[i]].key) % n == b
  {
    DropAt(c, j, i);
    var i0 := if i < j then i else i + 1;
    assert hash(nodes[c[i0]].key) % n == b;
  }

  /** Dropping element `j` of a chain keeps its keys distinct. */
  lemma UnlinkAfterKeys<K, V>(nodes: seq<HashNode<K, V>>, c: seq<nat>, j: nat, i: nat, k: nat)
    requires 0 < j < |c| && i < k < |c| - 1
    requires forall x :: 0 <= x < |c| ==> c[x] < |nodes|
    requires forall x, y :: 0 <= x < y < |c| ==> nodes[c[x]].key != nodes[c[y]].key
    ensures var nodes', c' := nodes[c[j - 1] := nodes[c[j - 1]].(next := nodes[c[j]].next)], c[..j] + c[j + 1..];
      nodes'[c'[i]].key != nodes'[c'[k]].key
  {
    DropAt(c, j, i);
    DropAt(c, j, k);
    var i0 := if i < j then i else i + 1;
    var k0 := if k < j then k else k + 1;
    assert nodes[c[i0]].key != nodes[c[k0]].key;
  }

  /** Unlinking element `j > 0` of a chain, by pointing its predecessor at its successor,
      keeps that chain well formed. */
  lemma UnlinkAfterOk<K, V>(nodes: seq<HashNode<K, V>>, first: Option<nat>, c: seq<nat>,
                            b: nat, n: nat, hash: K -> nat, j: nat)
    requires n > 0 && ChainOk(nodes, first, c, b, n, hash) && 0 < j < |c|
    ensures ChainOk(nodes[c[j - 1] := nodes[c[j - 1]].(next := nodes[c[j]].next)], first,
                    c[..j] + c[j + 1..], b, n, hash)
  {
    var nodes', c' := nodes[c[j - 1] := nodes[c[j - 1]].(next := nodes[c[j]].next)], c[..j] + c[j + 1..];
    forall i | 0 <= i < |c'|
      ensures c'[i] < |nodes'| && hash(nodes'[c'[i]].key) % n == b
    {
      UnlinkAfterBucket(nodes, c, b, n, hash, j, i);
    }
    forall i | 0 <= i < |c'|
      ensures nodes'[c'[i]].next == (if i + 1 < |c'| then Some(c'[i + 1]) else None)
    {
      UnlinkAfterLinks(nodes, c, j, i);
    }
    forall i, k | 0 <= i < k < |c'|
      ensures nodes'[c'[i]].key != nodes'[c'[k]].key
    {
      UnlinkAfterKeys(nodes, c, j, i, k);
    }
    DropAt(c, j, 0);
  }

  /** Unlinking element `j` of chain `b` (from the bucket when it is the front, otherwise from
      its predecessor) keeps the representation well formed. */
  lemma UnlinkKeeps<K, V>(nodes: seq<HashNode<K, V>>, bs: seq<Option<nat>>,
                          cs: seq<seq<nat>>, hash: K -> nat, b: nat, j: nat,
                          nodes': seq<HashNode<K, V>>, bs': seq<Option<nat>>)
    requires WellFormed(nodes, bs, cs, hash) && b < |cs| && j < |cs[b]|
    requires cs[b][j] < |nodes| && (j > 0 ==> cs[b][j - 1] < |nodes|)
    requires j == 0 ==> nodes' == nodes && bs' == bs[b := nodes[cs[b][0]].next]
    requires j > 0 ==> bs' == bs && nodes' == nodes[cs[b][j - 1] := nodes[cs[b][j - 1]].(next := nodes[cs[b][j]].next)]
    ensures WellFormed(nodes', bs', cs[b := cs[b][..j] + cs[b][j + 1..]], hash)
  {
    assert ChainOk(nodes, bs[b], cs[b], b, |cs|, hash);
    OtherChainsKept(nodes, nodes', bs, bs', cs, hash, b);
    if j == 0 {
      UnlinkFrontOk(nodes, bs[b], cs[b], b, |cs|, hash);
      assert cs[b][..0] + cs[b][1..] == cs[b][1..];
    } else {
      UnlinkAfterOk(nodes, bs[b], cs[b], b, |cs|, hash, j);
    }
  }

  /** Appending a new last node in slot `|nodes|` to a chain (linked from the bucket when the
      chain is empty, otherwise from the old last node) keeps that chain well formed. */
  lemma AppendChainOk<K, V>(nodes: seq<HashNode<K, V>>, nodes': seq<HashNode<K, V>>,
                            first: Option<nat>, first': Option<nat>, c: seq<nat>,
                            b: nat, n: nat, hash: K -> nat, key: K, value: V)
    requires n > 0 && ChainOk(nodes, first, c, b, n, hash) && hash(key) % n == b
    requires forall j :: 0 <= j < |c| ==> nodes[c[j]].key != key
    requires c == [] ==> first' == Some(|nodes|) && nodes' == nodes + [HashNode(key, value, None)]
    requires c != [] ==> (first' == first &&
      nodes' == (nodes + [HashNode(key, value, None)])[c[|c| - 1] := nodes[c[|c| - 1]].(next := Some(|nodes|))])
    ensures ChainOk(nodes', first', c + [|nodes|], b, n, hash)
  {
    var c' := c + [|nodes|];
    forall i | 0 <= i < |c'|
      ensures c'[i] < |nodes'| && nodes'[c'[i]].key == (if i < |c| then nodes[c[i]].key else key)
      ensures hash(nodes'[c'[i]].key) % n == b
    {
      if i < |c| {
        assert c'[i] == c[i];
        assert hash(nodes[c[i]].key) % n == b;
      }
    }
    forall i | 0 <= i < |c'|
      ensures nodes'[c'[i]].next == (if i + 1 < |c'| then Some(c'[i + 1]) else None)
    {
      if i + 1 < |c| {
        assert c'[i] == c[i] && c'[i + 1] == c[i + 1];
        assert c[i] != c[|c| - 1] by {
          assert nodes[c[i]].key != nodes[c[|c| - 1]].key;
        }
        assert nodes[c[i]].next == Some(c[i + 1]);
      } else if i + 1 == |c| {
        assert c'[i] == c[|c| - 1] && c'[i + 1] == |nodes|;
      }
    }
    forall i, k | 0 <= i < k < |c'|
      ensures nodes'[c'[i]].key != nodes'[c'[k]].key
    {
      if k < |c| {
        assert c'[i] == c[i] && c'[k] == c[k];
        assert nodes[c[i]].key != nodes[c[k]].key;
      } else {
        assert c'[i] == c[i];
        assert nodes[c[i]].key != key;
      }
    }
  }

  /** Appending a new last node to chain `b` (linked from the bucket when the chain is empty,
      otherwise from the old last node) keeps the representation well formed. */
  lemma AppendKeeps<K, V>(nodes: seq<HashNode<K, V>>, bs: seq<Option<nat>>,
                          cs: seq<seq<nat>>, hash: K -> nat, b: nat, key: K, value: V,
                          nodes': seq<HashNode<K, V>>, bs': seq<Option<nat>>)
    requires WellFormed(nodes, bs, cs, hash) && b < |cs|
    requires hash(key) % |cs| == b
    requires forall j :: 0 <= j < |cs[b]| ==> cs[b][j] < |nodes| && nodes[cs[b][j]].key != key
    requires cs[b] == [] ==> bs' == bs[b := Some(|nodes|)] && nodes' == nodes + [HashNode(key, value, None)]
    requires cs[b] != [] ==> (bs' == bs && cs[b][|cs[b]| - 1] < |nodes| &&
      nodes' == (nodes + [HashNode(key, value, None)])[cs[b][|cs[b]| - 1] := nodes[cs[b][|cs[b]| - 1]].(next := Some(|nodes|))])
    ensures WellFormed(nodes', bs', cs[b := cs[b] + [|nodes|]], hash)
  {
    assert ChainOk(nodes, bs[b], cs[b], b, |cs|, hash);
    OtherChainsKept(nodes, nodes', bs, bs', cs, hash, b);
    AppendChainOk(nodes, nodes', bs[b], bs'[b], cs[b], b, |cs|, hash, key, value);
  }

  /** Emptying chain `b` keeps the representation well formed. */
  lemma EmptyChainKeeps<K, V>(nodes: seq<HashNode<K, V>>, bs: seq<Option<nat>>,
                              cs: seq<seq<nat>>, hash: K -> nat, b: nat)
    requires WellFormed(nodes, bs, cs, hash) && b < |cs|
    ensures WellFormed(nodes, bs[b := None], cs[b := []], hash)
  {
    OtherChainsKept(nodes, nodes, bs, bs[b := None], cs, hash, b);
  }

  /** Appending slots to the arena never disturbs a well-formed representation. */
  lemma GrowArenaKeeps<K, V>(nodes: seq<HashNode<K, V>>, more: seq<HashNode<K, V>>,
                             bs: seq<Option<nat>>, cs: seq<seq<nat>>, hash: K -> nat)
    requires WellFormed(nodes, bs, cs, hash)
    ensures WellFormed(nodes + more, bs, cs, hash)
  {
    forall x | 0 <= x < |cs|
      ensures ChainOk(nodes + more, bs[x], cs[x], x, |cs|, hash)
    {
      assert ChainOk(nodes, bs[x], cs[x], x, |cs|, hash);
    }
  }

  /** The first slot of a traversal, or the null iterator. */
  function First(t: seq<nat>): (r: Option<nat>)
    ensures r.Some? <==> t != []
    ensures r.Some? ==> r.value == t[0]
  {
    if t == [] then None else Some(t[0])
  }

  /** The first slot after dropping position `pos` of a traversal. */
  lemma RemoveFirst(t: seq<nat>, pos: nat)
    requires pos < |t|
    ensures First(t[..pos] + t[pos + 1..]) ==
      if pos == 0 then (if 1 < |t| then Some(t[1]) else None) else First(t)
  {
    if pos > 0 {
      assert (t[..pos] + t[pos + 1..])[0] == t[0];
    }
  }

  /** The chains before `b` are all empty exactly when chain `b` starts the traversal. */
  lemma PrefixEmpty(cs: seq<seq<nat>>, b: nat)
    requires b <= |cs|
    ensures Concat(cs, 0, b) == [] <==> forall x :: 0 <= x < b ==> cs[x] == []
  {
    ConcatEmpty(cs, 0, b);
  }

  /** The first slot in traversal order sits at the front of the first non-empty bucket, and
      that bucket is the one its key hashes to. */
  lemma FirstBucket<K, V>(nodes: seq<HashNode<K, V>>, bs: seq<Option<nat>>,
                          cs: seq<seq<nat>>, hash: K -> nat)
    requires WellFormed(nodes, bs, cs, hash) && Flatten(cs) != []
    ensures Flatten(cs)[0] < |nodes|
    ensures var fb := hash(nodes[Flatten(cs)[0]].key) % |cs|;
      cs[fb] != [] && cs[fb][0] == Flatten(cs)[0] && forall x :: 0 <= x < fb ==> cs[x] == []
  {
    var b, j := FlattenLocate(cs, 0);
    assert j == 0 && Concat(cs, 0, b) == [];
    FlattenAt(cs, b, 0);
    PrefixEmpty(cs, b);
    assert hash(nodes[cs[b][0]].key) % |cs| == b by {
      assert ChainOk(nodes, bs[b], cs[b], b, |cs|, hash);
    }
  }


  /** Within one chain a key occurs at one index only. */
  lemma ChainKeyIndex<K, V>(nodes: seq<HashNode<K, V>>, bs: seq<Option<nat>>,
                            cs: seq<seq<nat>>, hash: K -> nat, b: nat, j1: nat, j2: nat)
    requires WellFormed(nodes, bs, cs, hash) && b < |cs| && j1 < |cs[b]| && j2 < |cs[b]|
    requires cs[b][j1] < |nodes| && cs[b][j2] < |nodes|
    requires nodes[cs[b][j1]].key == nodes[cs[b][j2]].key
    ensures j1 == j2
  {
    assert ChainOk(nodes, bs[b], cs[b], b, |cs|, hash);
  }

  /** (`nodes1`, `bs1`, `cs1`, `size1`) is (`nodes0`, `bs0`, `cs0`, `size0`) with element `j`
      of chain `b` unlinked: the bucket (for the front) or the predecessor takes over the node's
      `next`, the count drops by one and the traversal loses that position. */
  ghost predicate Unlinked<K, V>(nodes0: seq<HashNode<K, V>>, bs0: seq<Option<nat>>,
                                 cs0: seq<seq<nat>>, size0: nat, b: nat, j: nat,
                                 nodes1: seq<HashNode<K, V>>, bs1: seq<Option<nat>>,
                                 cs1: seq<seq<nat>>, size1: nat)
  {
    && b < |cs0| == |bs0| && j < |cs0[b]| && cs0[b][j] < |nodes0|
    && (j > 0 ==> cs0[b][j - 1] < |nodes0|)
    && var s, p := cs0[b][j], |Concat(cs0, 0, b)| + j;
       && (j == 0 ==> nodes1 == nodes0 && bs1 == bs0[b := nodes0[s].next])
       && (j > 0 ==> (bs1 == bs0 &&
             nodes1 == nodes0[cs0[b][j - 1] := nodes0[cs0[b][j - 1]].(next := nodes0[s].next)]))
       && cs1 == cs0[b := cs0[b][..j] + cs0[b][j + 1..]]
       && size0 > 0 && size1 == size0 - 1
       && p < |Flatten(cs0)|
       && Flatten(cs1) == Flatten(cs0)[..p] + Flatten(cs0)[p + 1..]
  }

  /** `erase(key)` keeps the cached head: when the erased node was the first of the traversal,
      the slot the head names is no longer the first one afterwards. */
  lemma EraseKeyStaleHead<K, V>(nodes0: seq<HashNode<K, V>>, bs0: seq<Option<nat>>,
                                cs0: seq<seq<nat>>, hash: K -> nat, size0: nat, b: nat, j: nat,
                                nodes1: seq<HashNode<K, V>>, bs1: seq<Option<nat>>,
                                cs1: seq<seq<nat>>, size1: nat)
    requires WellFormed(nodes0, bs0, cs0, hash)
    requires Unlinked(nodes0, bs0, cs0, size0, b, j, nodes1, bs1, cs1, size1)
    requires First(Flatten(cs0)) == Some(cs0[b][j])
    ensures First(Flatten(cs1)) != Some(cs0[b][j])
  {
    var t, p := Flatten(cs0), |Concat(cs0, 0, b)| + j;
    FlattenAt(cs0, b, j);
    if p != 0 {
      SlotsDistinct(nodes0, bs0, cs0, hash, 0, p);
    }
    if 1 < |t| {
      SlotsDistinct(nodes0, bs0, cs0, hash, 0, 1);
    }
  }

  /** An instance of `UnorderedMap.CopyAssign`, whose head afterwards is
      `LastFront(chains, bucketCount)`, the first copy of the last non-empty bucket: with one
      node in each of two buckets, that is not the first node of the traversal. */
  lemma CopyAssignHeadNotFirst()
    ensures LastFront([[0], [1]], 2) == Some(1)
    ensures First(Flatten([[0], [1]])) == Some(0)
  {
    assert Flatten([[0], [1]]) == [0, 1] by {
      assert Concat([[0], [1]], 0, 1) == [0];
    }
  }

  /** Unlinking element `j` of chain `b` of a well-formed representation, as `erase` does it,
      yields a well-formed representation of the traversal without that position. */
  lemma UnlinkEffect<K, V>(nodes: seq<HashNode<K, V>>, bs: seq<Option<nat>>,
                           cs: seq<seq<nat>>, hash: K -> nat, b: nat, j: nat)
    returns (nodes': seq<HashNode<K, V>>, bs': seq<Option<nat>>)
    requires WellFormed(nodes, bs, cs, hash) && b < |cs| && j < |cs[b]|
    ensures var cs' := cs[b := cs[b][..j] + cs[b][j + 1..]];
      && WellFormed(nodes', bs', cs', hash)
      && Unlinked(nodes, bs, cs, |Flatten(cs)|, b, j, nodes', bs', cs', |Flatten(cs')|)
  {
    ChainAt(nodes, bs, cs, hash, b, j);
    if j > 0 {
      ChainAt(nodes, bs, cs, hash, b, j - 1);
    }
    var next := nodes[cs[b][j]].next;
    if j == 0 {
      nodes', bs' := nodes, bs[b := next];
    } else {
      nodes', bs' := nodes[cs[b][j - 1] := nodes[cs[b][j - 1]].(next := next)], bs;
    }
    UnlinkKeeps(nodes, bs, cs, hash, b, j, nodes', bs');
    FlattenRemoveAt(cs, b, j);
  }

  /** After a new node is put in front of chain `b`, the first node of the traversal is the
      new node exactly when there was none or `b` is at most the bucket of the old first. */
  lemma PrependFirst<K, V>(nodes: seq<HashNode<K, V>>, bs: seq<Option<nat>>,
                           cs: seq<seq<nat>>, hash: K -> nat, b: nat, s: nat)
    requires WellFormed(nodes, bs, cs, hash) && b < |cs|
    ensures Flatten(cs) != [] ==> Flatten(cs)[0] < |nodes|
    ensures First(Flatten(cs[b := [s] + cs[b]])) ==
      if Flatten(cs) == [] || b <= hash(nodes[Flatten(cs)[0]].key) % |cs|
      then Some(s) else First(Flatten(cs))
  {
    var t := Flatten(cs);
    PrependFlat(cs, b, s);
    var p := |Concat(cs, 0, b)|;
    PrefixEmpty(cs, b);
    if t != [] {
      FirstBucket(nodes, bs, cs, hash);
      var fb := hash(nodes[t[0]].key) % |cs|;
      if b > fb {
        assert cs[fb] != [];
        assert p > 0;
      }
    }
  }

  /** A bucket array of nulls represents all-empty chains. */
  lemma EmptyWellFormed<K, V>(nodes: seq<HashNode<K, V>>, bs: seq<Option<nat>>,
                              cs: seq<seq<nat>>, hash: K -> nat)
    requires |bs| == |cs| > 0
    requires forall x :: 0 <= x < |cs| ==> bs[x] == None && cs[x] == []
    ensures WellFormed(nodes, bs, cs, hash) && Flatten(cs) == []
  {
    FlattenEmpty(cs);
  }

  /** Growing an arena keeps what its chains hold. */
  lemma SamePairsGrow<K, V>(nodes: seq<HashNode<K, V>>, nodes': seq<HashNode<K, V>>, c: seq<nat>,
                            other: seq<HashNode<K, V>>, oc: seq<nat>)
    requires |nodes| <= |nodes'| && nodes'[..|nodes|] == nodes
    requires SamePairs(nodes, c, other, oc)
    ensures SamePairs(nodes', c, other, oc)
  {
    forall j | 0 <= j < |c|
      ensures nodes'[c[j]] == nodes[c[j]]
    {
      assert nodes'[c[j]] == nodes'[..|nodes|][c[j]];
    }
  }

  /** Copying one more node keeps the copied prefix of a chain. */
  lemma SamePairsAppend<K, V>(nodes: seq<HashNode<K, V>>, nodes': seq<HashNode<K, V>>, c: seq<nat>,
                              other: seq<HashNode<K, V>>, oc: seq<nat>, o: nat)
    requires SamePairs(nodes, c, other, oc) && o < |other|
    requires |nodes'| == |nodes| + 1
    requires forall s :: 0 <= s < |nodes| ==> nodes'[s].key == nodes[s].key && nodes'[s].value == nodes[s].value
    requires nodes'[|nodes|].key == other[o].key && nodes'[|nodes|].value == other[o].value
    ensures SamePairs(nodes', c + [|nodes|], other, oc + [o])
  {
    assert forall j :: 0 <= j < |c| ==> (c + [|nodes|])[j] == c[j] && (oc + [o])[j] == oc[j];
  }

  /** The copies made so far carry the keys of the source chain before `k`. */
  lemma CopiedKeysDiffer<K, V>(nodes: seq<HashNode<K, V>>, c: seq<nat>, onodes: seq<HashNode<K, V>>,
                               oc: seq<nat>, k: nat, key: K)
    requires k <= |oc| && SamePairs(nodes, c, onodes, oc[..k])
    requires forall j :: 0 <= j < k ==> oc[j] < |onodes| && onodes[oc[j]].key != key
    ensures forall j :: 0 <= j < |c| ==> c[j] < |nodes| && nodes[c[j]].key != key
  {
    forall j | 0 <= j < |c|
      ensures c[j] < |nodes| && nodes[c[j]].key != key
    {
      assert oc[..k][j] == oc[j];
    }
  }

  /** `UnorderedMap`: the bucket array, the arena of nodes the buckets link, the cached first
      node `head` and the element count. The hasher is a field; `nextPrime` (rounding the
      requested bucket count) is a parameter of the constructor. */
  class UnorderedMap<K(==), V> {
    var bucketCount: nat
    var buckets: array<Option<nat>>
    var nodes: seq<HashNode<K, V>>
    var head: Option<nat>
    var size: nat
    var hash: K -> nat
    /** The slots of each bucket's chain, front first. */
    ghost var chains: seq<seq<nat>>

    ghost predicate Valid()
      reads this`bucketCount, this`buckets, this`nodes, this`hash, this`chains, this`size, buckets
    {
      && bucketCount == buckets.Length
      && WellFormed(nodes, buckets[..], chains, hash)
      && size == |Flatten(chains)|
    }

    /** The slots in iteration order: ascending bucket index, then front of chain first. */
    ghost function Traversal(): seq<nat>
      reads this`chains
    {
      Flatten(chains)
    }

    /** `head` is null or names a slot of the arena (possibly a freed one). */
    ghost predicate HeadReadable()
      reads this`head, this`nodes
    {
      head.Some? ==> head.value < |nodes|
    }

    /** The cached head is the first node of the iteration order. */
    ghost predicate HeadFirst()
      reads this`head, this`chains
    {
      head == First(Traversal())
    }

    /** `bucket(key)`: the bucket a key hashes to. */
    function Bucket(key: K): (r: nat)
      reads this`hash, this`bucketCount
      requires bucketCount > 0
      ensures r < bucketCount
      ensures hash(key) < bucketCount ==> r == hash(key)
    {
      RangeHash(hash(key), bucketCount)
    }

    /** `size()`: the number of nodes reached by the traversal. */
    function Size(): (r: nat)
      reads this, buckets
      requires Valid()
      ensures r == |Traversal()|
    {
      size
    }

    /** `empty()`: true exactly when the traversal reaches no node. */
    function IsEmpty(): (r: bool)
      reads this, buckets
      requires Valid()
      ensures r <==> Traversal() == []
    {
      size == 0
    }

    /** `bucket_count()`: one chain per bucket. */
    function BucketCount(): (r: nat)
      reads this, buckets
      requires Valid()
      ensures r == |chains| && r > 0
    {
      bucketCount
    }

    /** The key is stored, necessarily in the chain of its own bucket. */
    ghost predicate Present(key: K)
      reads this`bucketCount, this`buckets, this`nodes, this`hash, this`chains, this`size, buckets
      requires Valid()
    {
      var b := Bucket(key);
      assert ChainOk(nodes, buckets[..][b], chains[b], b, bucketCount, hash);
      exists j :: 0 <= j < |chains[b]| && nodes[chains[b][j]].key == key
    }

    /** Every stored node sits in the chain of the bucket its key hashes to. */
    lemma InOwnBucket(p: nat)
      requires Valid() && p < |Traversal()|
      ensures Traversal()[p] < |nodes|
      ensures Traversal()[p] in chains[Bucket(nodes[Traversal()[p]].key)]
    {
      var b, j := FlattenLocate(chains, p);
      FlattenAt(chains, b, j);
      assert ChainOk(nodes, buckets[..][b], chains[b], b, bucketCount, hash);
    }

    /** `_find(code, bucket, key)`: scan one chain for the key. */
    method FindInBucket(b: nat, key: K) returns (r: Option<nat>, ghost j: nat)
      requires Valid() && b < bucketCount
      ensures forall k :: 0 <= k < |chains[b]| ==> chains[b][k] < |nodes|
      ensures r.Some? ==> j < |chains[b]| && r.value == chains[b][j] && nodes[r.value].key == key
      ensures r.None? <==> forall k :: 0 <= k < |chains[b]| ==> nodes[chains[b][k]].key != key
    {
      ghost var c := chains[b];
      assert ChainOk(nodes, buckets[..][b], c, b, bucketCount, hash);
      var curr := buckets[b];
      j := 0;
      while curr.Some?
        invariant j <= |c|
        invariant curr == (if j < |c| then Some(c[j]) else None)
        invariant forall k :: 0 <= k < j ==> nodes[c[k]].key != key
        decreases |c| - j
      {
        if nodes[curr.value].key == key {
          return curr, j;
        }
        assert nodes[c[j]].next == (if j + 1 < |c| then Some(c[j + 1]) else None);
        curr := nodes[curr.value].next;
        j := j + 1;
      }
      r := None;
    }

    /** `find(key)`: the node holding the key, or the end iterator. */
    method Find(key: K) returns (r: Option<nat>)
      requires Valid()
      ensures r.Some? ==> r.value in chains[Bucket(key)] && r.value < |nodes| && nodes[r.value].key == key
      ensures r.None? <==> !Present(key)
    {
      ghost var j;
      r, j := FindInBucket(Bucket(key), key);
    }

    /** `bucket_size(n)`: count the nodes of chain `n`. */
    method BucketSize(n: nat) returns (count: nat)
      requires Valid() && n < bucketCount
      ensures count == |chains[n]|
    {
      ghost var c := chains[n];
      assert ChainOk(nodes, buckets[..][n], c, n, bucketCount, hash);
      var curr := buckets[n];
      count := 0;
      while curr.Some?
        invariant count <= |c|
        invariant curr == (if count < |c| then Some(c[count]) else None)
        decreases |c| - count
      {
        assert nodes[c[count]].next == (if count + 1 < |c| then Some(c[count + 1]) else None);
        count := count + 1;
        curr := nodes[curr.value].next;
      }
    }

    /** `begin(n)`: the local iterator at the front of chain `n`. */
    function LocalBegin(n: nat): (r: Option<nat>)
      reads this, buckets
      requires Valid() && n < bucketCount
      ensures r == First(chains[n])
    {
      assert ChainOk(nodes, buckets[..][n], chains[n], n, bucketCount, hash);
      buckets[n]
    }

    /** `local_iterator::operator++`: the same-chain successor, or the end iterator. */
    function LocalNext(slot: nat): (r: Option<nat>)
      reads this, buckets
      requires Valid() && slot < |nodes|
      ensures forall n, j :: 0 <= n < |chains| && 0 <= j < |chains[n]| && chains[n][j] == slot ==>
                r == (if j + 1 < |chains[n]| then Some(chains[n][j + 1]) else None)
    {
      assert forall n :: 0 <= n < |chains| ==> ChainOk(nodes, buckets[..][n], chains[n], n, bucketCount, hash);
      nodes[slot].next
    }

    /** `begin()`: the iterator at the cached head. */
    function Begin(): (r: Option<nat>)
      reads this, buckets
      ensures Valid() && HeadFirst() ==> (r.None? <==> size == 0)
      ensures Valid() && HeadFirst() && r.Some? ==> r.value == Traversal()[0]
    {
      head
    }

    /** The bucket scan of `basic_iterator::operator++`: the first non-empty bucket from
        `index` on, or `bucketCount` when there is none. */
    method NextNonEmpty(index: nat) returns (r: nat)
      requires Valid() && index <= bucketCount
      ensures index <= r <= bucketCount
      ensures forall x :: index <= x < r ==> chains[x] == []
      ensures r < bucketCount ==> chains[r] != [] && buckets[r] == Some(chains[r][0])
    {
      r := index;
      while r < bucketCount && buckets[r].None?
        invariant index <= r <= bucketCount
        invariant forall x :: index <= x < r ==> chains[x] == []
      {
        assert ChainOk(nodes, buckets[..][r], chains[r], r, bucketCount, hash);
        r := r + 1;
      }
      if r < bucketCount {
        assert ChainOk(nodes, buckets[..][r], chains[r], r, bucketCount, hash);
      }
    }

    /** `basic_iterator::operator++`: follow the chain, and at its end move to the front of the
        next non-empty bucket, or to the end iterator. */
    method Advance(slot: nat, ghost pos: nat) returns (r: Option<nat>)
      requires Valid() && pos < |Traversal()| && Traversal()[pos] == slot
      ensures r == (if pos + 1 < |Traversal()| then Some(Traversal()[pos + 1]) else None)
    {
      ghost var b, j := FlattenLocate(chains, pos);
      FlattenAt(chains, b, j);
      assert slot == chains[b][j];
      ChainAt(nodes, buckets[..], chains, hash, b, j);
      if nodes[slot].next.Some? {
        FlattenNextInChain(chains, b, j);
        return nodes[slot].next;
      }
      var index := NextNonEmpty(Bucket(nodes[slot].key) + 1);
      if index >= bucketCount {
        FlattenNextNone(chains, b);
        r := None;
      } else {
        FlattenNextChain(chains, b, index);
        r := buckets[index];
      }
    }

    /** The bucket of the node `head` names, read through the cached pointer. */
    ghost function HeadAfter(b: nat, s: nat): Option<nat>
      reads this`head, this`nodes, this`hash, this`bucketCount
      requires HeadReadable() && bucketCount > 0
    {
      if head.None? || b <= Bucket(nodes[head.value].key) then Some(s) else head
    }

    /** The effect of adding a new node for `key` to the state (`nodes0`, `bs0`, `chains0`,
        `size0`): the arena gains one slot at the front of the key's chain, the count grows by
        one, and the traversal gains the new slot just before the old contents of that chain.
        Nothing else changes. */
    ghost predicate AddedFront(nodes0: seq<HashNode<K, V>>, bs0: seq<Option<nat>>,
                               chains0: seq<seq<nat>>, size0: nat, key: K, value: V)
      reads this`bucketCount, this`buckets, this`nodes, this`hash, this`chains, this`size, buckets
    {
      && bucketCount == buckets.Length > 0 && |chains0| == |bs0| == bucketCount
      && var b, s, p := Bucket(key), |nodes0|, |Concat(chains0, 0, Bucket(key))|;
         && nodes == nodes0 + [HashNode(key, value, bs0[b])]
         && buckets[..] == bs0[b := Some(s)]
         && chains == chains0[b := [s] + chains0[b]]
         && size == size0 + 1
         && p <= |Flatten(chains0)|
         && Traversal() == Flatten(chains0)[..p] + [s] + Flatten(chains0)[p..]
    }

    /** The effect of storing `value` for a key already in slot `s` of the state (`nodes0`,
        `bs0`, `chains0`, `size0`): only that node's value changes. */
    ghost predicate Overwrote(nodes0: seq<HashNode<K, V>>, bs0: seq<Option<nat>>,
                              chains0: seq<seq<nat>>, size0: nat, key: K, value: V, s: nat)
      reads this`bucketCount, this`buckets, this`nodes, this`hash, this`chains, this`size, buckets
    {
      && bucketCount > 0 && |chains0| == bucketCount
      && s < |nodes0| && s in chains0[Bucket(key)] && nodes0[s].key == key
      && nodes == nodes0[s := nodes0[s].(value := value)]
      && buckets[..] == bs0 && chains == chains0 && size == size0
    }

    /** Put a new node for an absent key in front of its chain. */
    method PushFront(key: K, value: V) returns (s: nat)
      requires Valid() && !Present(key)
      modifies this, buckets
      ensures bucketCount == old(bucketCount) && hash == old(hash) && buckets == old(buckets)
      ensures Valid() && AddedFront(old(nodes), old(buckets[..]), old(chains), old(size), key, value) && s == |old(nodes)|
      ensures head == old(head)
    {
      var b := Bucket(key);
      ghost var t, p := Traversal(), |Concat(chains, 0, b)|;
      ghost var nodes', bs', chains' := nodes + [HashNode(key, value, buckets[b])], buckets[..][b := Some(|nodes|)],
                                        chains[b := [|nodes|] + chains[b]];
      assert forall j :: 0 <= j < |chains[b]| ==> chains[b][j] < |nodes| && nodes[chains[b][j]].key != key by {
        assert ChainOk(nodes, buckets[..][b], chains[b], b, bucketCount, hash);
      }
      PrependKeeps(nodes, buckets[..], chains, hash, b, key, value);
      s := |nodes|;
      nodes := nodes + [HashNode(key, value, buckets[b])];
      buckets[b] := Some(s);
      chains := chains';
      size := size + 1;
      assert buckets[..] == bs';
    }

    /** Overwrite the value held in slot `s` of chain `b`. */
    method SetValue(key: K, value: V, s: nat, ghost j: nat)
      requires Valid() && j < |chains[Bucket(key)]| && chains[Bucket(key)][j] == s
      requires s < |nodes| && nodes[s].key == key
      modifies this
      ensures bucketCount == old(bucketCount) && hash == old(hash) && buckets == old(buckets)
      ensures Valid() && Overwrote(old(nodes), old(buckets[..]), old(chains), old(size), key, value, s)
      ensures head == old(head)
    {
      SetValueKeeps(nodes, buckets[..], chains, hash, s, value);
      nodes := nodes[s := nodes[s].(value := value)];
    }

    /** A new node for an absent key, followed by the head rule shared by `insert` and
        `_insert_into_bucket`: the new node becomes the head when there was none or its bucket
        is at most the bucket of the head. */
    method AddNode(key: K, value: V) returns (s: nat)
      requires Valid() && HeadReadable() && !Present(key)
      modifies this, buckets
      ensures bucketCount == old(bucketCount) && hash == old(hash) && buckets == old(buckets)
      ensures Valid() && HeadReadable() && AddedFront(old(nodes), old(buckets[..]), old(chains), old(size), key, value) && s == |old(nodes)|
      ensures head == old(HeadAfter(Bucket(key), |nodes|))
      ensures old(HeadFirst()) ==> HeadFirst()
    {
      var b := Bucket(key);
      var newHead: Option<nat> := if head.None? || b <= Bucket(nodes[head.value].key) then Some(|nodes|) else head;
      ghost var first: Option<nat> := First(Flatten(chains[b := [|nodes|] + chains[b]]));
      assert HeadFirst() ==> newHead == first by {
        PrependFirst(nodes, buckets[..], chains, hash, b, |nodes|);
      }
      s := PushFront(key, value);
      head := newHead;
    }

    /** `insert(const value_type &)`: overwrite the value of a present key; otherwise add a
        new node in front of the key's chain. */
    method Insert(key: K, value: V) returns (it: Option<nat>, inserted: bool)
      requires Valid() && HeadReadable()
      modifies this, buckets
      ensures bucketCount == old(bucketCount) && hash == old(hash) && buckets == old(buckets)
      ensures Valid() && HeadReadable()
      ensures inserted <==> !old(Present(key))
      ensures inserted ==> AddedFront(old(nodes), old(buckets[..]), old(chains), old(size), key, value) && it == Some(|old(nodes)|)
                           && head == old(HeadAfter(Bucket(key), |nodes|))
      ensures !inserted ==> it.Some? && Overwrote(old(nodes), old(buckets[..]), old(chains), old(size), key, value, it.value) && head == old(head)
      ensures old(HeadFirst()) ==> HeadFirst()
    {
      var found;
      ghost var j;
      found, j := FindInBucket(Bucket(key), key);
      if found.Some? {
        SetValue(key, value, found.value, j);
        return found, false;
      }
      var s := AddNode(key, value);
      it, inserted := Some(s), true;
    }

    /** `_insert_into_bucket`: the head rule is read before the scan and applied to the node
        found or added, present key or not. */
    method InsertIntoBucket(b: nat, key: K, value: V) returns (slot: nat)
      requires Valid() && HeadReadable() && bucketCount > 0 && b == Bucket(key)
      modifies this, buckets
      ensures bucketCount == old(bucketCount) && hash == old(hash) && buckets == old(buckets)
      ensures Valid() && HeadReadable()
      ensures old(Present(key)) ==> Overwrote(old(nodes), old(buckets[..]), old(chains), old(size), key, value, slot)
      ensures !old(Present(key)) ==> AddedFront(old(nodes), old(buckets[..]), old(chains), old(size), key, value)
                                     && slot == |old(nodes)|
      ensures head == old(HeadAfter(b, slot))
      ensures !old(Present(key)) && old(HeadFirst()) ==> HeadFirst()
    {
      var headBucket := if head.Some? then Bucket(nodes[head.value].key) else 0;
      var found;
      ghost var j;
      found, j := FindInBucket(b, key);
      if found.Some? {
        SetValue(key, value, found.value, j);
        slot := found.value;
        if head.None? || b <= headBucket {
          head := Some(slot);
        }
      } else {
        slot := AddNode(key, value);
      }
    }

    /** `insert(value_type &&)`: the same scan as `insert(const value_type &)`, with a new node
        added through `_insert_into_bucket`. */
    method InsertMove(key: K, value: V) returns (it: Option<nat>, inserted: bool)
      requires Valid() && HeadReadable()
      modifies this, buckets
      ensures bucketCount == old(bucketCount) && hash == old(hash) && buckets == old(buckets)
      ensures Valid() && HeadReadable()
      ensures inserted <==> !old(Present(key))
      ensures inserted ==> AddedFront(old(nodes), old(buckets[..]), old(chains), old(size), key, value)
                           && it == Some(|old(nodes)|) && head == old(HeadAfter(Bucket(key), |nodes|))
      ensures !inserted ==> it.Some? && head == old(head)
                            && Overwrote(old(nodes), old(buckets[..]), old(chains), old(size), key, value, it.value)
      ensures old(HeadFirst()) ==> HeadFirst()
    {
      var b := Bucket(key);
      var found;
      ghost var j;
      found, j := FindInBucket(b, key);
      if found.Some? {
        SetValue(key, value, found.value, j);
        return found, false;
      }
      var s := InsertIntoBucket(b, key, value);
      it, inserted := Some(s), true;
    }

    /** `operator[]`: the slot and value of a present key, changing nothing; for an absent key
        a new node holding `initial` (the value type's default `T{}`) is added. */
    method Index(key: K, initial: V) returns (slot: nat, v: V)
      requires Valid() && HeadReadable()
      modifies this, buckets
      ensures bucketCount == old(bucketCount) && hash == old(hash) && buckets == old(buckets)
      ensures Valid() && HeadReadable() && slot < |nodes| && v == nodes[slot].value
      ensures old(Present(key)) ==> slot in chains[Bucket(key)] && nodes[slot].key == key
                                    && nodes == old(nodes) && buckets[..] == old(buckets[..])
                                    && chains == old(chains) && size == old(size) && head == old(head)
      ensures !old(Present(key)) ==> AddedFront(old(nodes), old(buckets[..]), old(chains), old(size), key, initial)
                                     && slot == |old(nodes)| && v == initial
                                     && head == old(HeadAfter(Bucket(key), slot))
      ensures old(HeadFirst()) ==> HeadFirst()
    {
      var b := Bucket(key);
      var found;
      ghost var j;
      found, j := FindInBucket(b, key);
      if found.Some? {
        return found.value, nodes[found.value].value;
      }
      slot := InsertIntoBucket(b, key, initial);
      v := nodes[slot].value;
    }

    /** The scan of both `erase`s: the first node of chain `b` holding the key, with its
        predecessor in the chain (null for the front). */
    method FindWithPrev(b: nat, key: K) returns (found: Option<nat>, prev: Option<nat>, ghost j: nat)
      requires Valid() && b < bucketCount
      ensures forall k :: 0 <= k < |chains[b]| ==> chains[b][k] < |nodes|
      ensures found.Some? ==> j < |chains[b]| && found.value == chains[b][j] && nodes[found.value].key == key
                              && prev == (if j == 0 then None else Some(chains[b][j - 1]))
      ensures found.None? <==> forall k :: 0 <= k < |chains[b]| ==> nodes[chains[b][k]].key != key
    {
      ghost var c := chains[b];
      assert ChainOk(nodes, buckets[..][b], c, b, bucketCount, hash);
      prev := None;
      var curr := buckets[b];
      j := 0;
      while curr.Some?
        invariant j <= |c|
        invariant curr == (if j < |c| then Some(c[j]) else None)
        invariant prev == (if j == 0 then None else Some(c[j - 1]))
        invariant forall k :: 0 <= k < j ==> nodes[c[k]].key != key
        decreases |c| - j
      {
        if nodes[curr.value].key == key {
          return curr, prev, j;
        }
        assert nodes[c[j]].next == (if j + 1 < |c| then Some(c[j + 1]) else None);
        prev := curr;
        curr := nodes[curr.value].next;
        j := j + 1;
      }
      found := None;
    }

    /** Unlink element `j` of chain `b`, given its predecessor. */
    method Unlink(b: nat, slot: nat, prev: Option<nat>, ghost j: nat)
      requires Valid() && b < bucketCount && j < |chains[b]| && chains[b][j] == slot
      requires prev == (if j == 0 then None else Some(chains[b][j - 1]))
      modifies this, buckets
      ensures bucketCount == old(bucketCount) && hash == old(hash) && buckets == old(buckets)
      ensures head == old(head) && |nodes| == |old(nodes)|
      ensures Valid()
      ensures Unlinked(old(nodes), old(buckets[..]), old(chains), old(size), b, j, nodes, buckets[..], chains, size)
      ensures PairsKept(old(nodes), nodes)
    {
      ghost var nodes', bs' := UnlinkEffect(nodes, buckets[..], chains, hash, b, j);
      ghost var chains' := chains[b := chains[b][..j] + chains[b][j + 1..]];
      var next := nodes[slot].next;
      if prev.None? {
        buckets[b] := next;
      } else {
        nodes := nodes[prev.value := nodes[prev.value].(next := next)];
      }
      chains := chains';
      size := size - 1;
      assert nodes == nodes' && buckets[..] == bs';
    }

    /** `erase(key)`: unlink the key's node and report 1, or report 0 and change nothing. The
        cached head is left as it was, even when it named the erased node. */
    method EraseKey(key: K) returns (count: nat, ghost j: nat)
      requires Valid()
      modifies this, buckets
      ensures bucketCount == old(bucketCount) && hash == old(hash) && buckets == old(buckets)
      ensures Valid() && head == old(head) && PairsKept(old(nodes), nodes)
      ensures count == (if old(Present(key)) then 1 else 0)
      ensures count == 0 ==> nodes == old(nodes) && buckets[..] == old(buckets[..])
                             && chains == old(chains) && size == old(size)
      ensures count == 1 ==> Unlinked(old(nodes), old(buckets[..]), old(chains), old(size), Bucket(key), j,
                                      nodes, buckets[..], chains, size)
                             && old(nodes)[old(chains)[Bucket(key)][j]].key == key
    {
      var b := Bucket(key);
      var found, prev;
      found, prev, j := FindWithPrev(b, key);
      if found.None? {
        return 0, j;
      }
      Unlink(b, found.value, prev, j);
      count := 1;
    }

    /** Where traversal position `pos` sits: at index `j` of the chain of its key's bucket. */
    lemma LocateSlot(pos: nat) returns (j: nat)
      requires Valid() && pos < |Traversal()|
      ensures var slot := Traversal()[pos];
        && slot < |nodes| && var b := Bucket(nodes[slot].key);
        && j < |chains[b]| && chains[b][j] == slot && pos == |Concat(chains, 0, b)| + j
    {
      var b;
      b, j := FlattenLocate(chains, pos);
      FlattenAt(chains, b, j);
      ChainAt(nodes, buckets[..], chains, hash, b, j);
    }

    /** What dropping traversal position `pos` does to the first node: a head naming that
        node can only be at position 0, and then the following position becomes the first. */
    lemma EraseHeadFacts(pos: nat)
      requires Valid() && pos < |Traversal()|
      ensures var t := Traversal();
        && (HeadFirst() && head == Some(t[pos]) ==> pos == 0)
        && (pos + 1 < |t| ==> t[pos + 1] < |nodes|)
        && (HeadFirst() ==> First(t[..pos] + t[pos + 1..]) == (if head == Some(t[pos]) then
              (if pos + 1 < |t| then Some(t[pos + 1]) else None) else head))
    {
      var t := Traversal();
      if HeadFirst() && head == Some(t[pos]) && pos != 0 {
        SlotsDistinct(nodes, buckets[..], chains, hash, 0, pos);
      }
      if pos + 1 < |t| {
        SlotsInArena(nodes, buckets[..], chains, hash, pos + 1);
      }
      RemoveFirst(t, pos);
    }

    /** `erase(iterator)`: the end iterator is returned unchanged; otherwise the node is
        unlinked and its traversal successor returned, and a head naming the node moves to that
        successor. */
    method EraseAt(it: Option<nat>, ghost pos: nat) returns (r: Option<nat>)
      requires Valid() && HeadReadable()
      requires it.Some? ==> pos < |Traversal()| && Traversal()[pos] == it.value
      modifies this, buckets
      ensures bucketCount == old(bucketCount) && hash == old(hash) && buckets == old(buckets)
      ensures Valid() && HeadReadable() && PairsKept(old(nodes), nodes)
      ensures it.None? ==> r.None? && nodes == old(nodes) && buckets[..] == old(buckets[..])
                           && chains == old(chains) && size == old(size) && head == old(head)
      ensures it.Some? ==> (var t := old(Traversal());
                r == (if pos + 1 < |t| then Some(t[pos + 1]) else None)
                && size == old(size) - 1 && Traversal() == t[..pos] + t[pos + 1..]
                && head == (if old(head) == it then r else old(head)))
      ensures old(HeadFirst()) ==> HeadFirst()
    {
      if it.None? {
        return it;
      }
      var slot := it.value;
      ghost var j0 := LocateSlot(pos);
      var b := Bucket(nodes[slot].key);
      var found, prev;
      ghost var j;
      found, prev, j := FindWithPrev(b, nodes[slot].key);
      assert found.Some? && j == j0 by {
        if found.Some? {
          ChainKeyIndex(nodes, buckets[..], chains, hash, b, j, j0);
        }
      }
      EraseHeadFacts(pos);
      r := Advance(slot, pos);
      Unlink(b, found.value, prev, j);
      if head == Some(slot) {
        head := r;
      }
    }

    /** `erase(key)` with the cached head maintained as `erase(iterator)` maintains it: when the
        erased node is the head, the head moves to its traversal successor. */
    method EraseKeyCorrected(key: K) returns (count: nat, ghost pos: nat)
      requires Valid() && HeadReadable()
      modifies this, buckets
      ensures bucketCount == old(bucketCount) && hash == old(hash) && buckets == old(buckets)
      ensures Valid() && HeadReadable() && PairsKept(old(nodes), nodes)
      ensures count == (if old(Present(key)) then 1 else 0)
      ensures count == 0 ==> nodes == old(nodes) && buckets[..] == old(buckets[..])
                             && chains == old(chains) && size == old(size) && head == old(head)
      ensures count == 1 ==> (var t := old(Traversal());
                pos < |t| && t[pos] < |old(nodes)| && old(nodes)[t[pos]].key == key
                && size == old(size) - 1 && Traversal() == t[..pos] + t[pos + 1..]
                && head == (if old(head) == Some(t[pos])
                            then (if pos + 1 < |t| then Some(t[pos + 1]) else None) else old(head)))
      ensures old(HeadFirst()) ==> HeadFirst()
    {
      var b := Bucket(key);
      var found, prev;
      ghost var j;
      found, prev, j := FindWithPrev(b, key);
      if found.None? {
        return 0, 0;
      }
      pos := |Concat(chains, 0, b)| + j;
      FlattenAt(chains, b, j);
      EraseHeadFacts(pos);
      var r: Option<nat> := None;
      if head == found {
        r := Advance(found.value, pos);
      }
      Unlink(b, found.value, prev, j);
      if head == found {
        head := r;
      }
      count := 1;
    }

    /** `clear()`: every bucket is emptied and the count set to zero. The freed nodes stay in
        the arena and the cached head is left as it was. */
    method Clear()
      requires Valid()
      modifies this, buckets
      ensures bucketCount == old(bucketCount) && hash == old(hash) && buckets == old(buckets)
      ensures Valid() && nodes == old(nodes) && head == old(head) && size == 0
      ensures forall x :: 0 <= x < bucketCount ==> buckets[x] == None && chains[x] == []
    {
      var i := 0;
      while i < bucketCount
        invariant 0 <= i <= bucketCount == buckets.Length == |chains|
        invariant bucketCount == old(bucketCount) && hash == old(hash) && buckets == old(buckets)
        invariant nodes == old(nodes) && head == old(head)
        invariant WellFormed(nodes, buckets[..], chains, hash)
        invariant forall x :: 0 <= x < i ==> buckets[x] == None && chains[x] == []
        invariant i == 0 ==> size == old(size)
        invariant i > 0 ==> size == 0
      {
        EmptyChainKeeps(nodes, buckets[..], chains, hash, i);
        buckets[i] := None;
        chains := chains[i := []];
        size := 0;
        i := i + 1;
      }
      FlattenEmpty(chains);
    }

    /** After `clear()` as written, a head that named a node no longer agrees with the empty
        traversal. */
    lemma ClearStaleHead()
      requires Valid() && size == 0 && head.Some?
      ensures !HeadFirst()
    {
      FlattenEmpty(chains);
    }

    /** `clear()` as evidently intended: as above, and the cached head becomes null too. */
    method ClearCorrected()
      requires Valid()
      modifies this, buckets
      ensures bucketCount == old(bucketCount) && hash == old(hash) && buckets == old(buckets)
      ensures Valid() && nodes == old(nodes) && head == None && size == 0
      ensures forall x :: 0 <= x < bucketCount ==> buckets[x] == None && chains[x] == []
      ensures HeadFirst() && HeadReadable()
    {
      Clear();
      head := None;
      FlattenEmpty(chains);
    }

    /** The explicit constructor: `nextPrime(requested)` null buckets, no nodes, null head. */
    constructor (requested: nat, nextPrime: nat -> nat, hash: K -> nat)
      requires nextPrime(requested) > 0
      ensures Valid() && HeadReadable() && HeadFirst()
      ensures bucketCount == nextPrime(requested) && this.hash == hash
      ensures size == 0 && head == None && nodes == [] && fresh(buckets)
    {
      var n := nextPrime(requested);
      bucketCount := n;
      buckets := new Option<nat>[n](_ => None);
      nodes := [];
      chains := seq(n, _ => []);
      head := None;
      size := 0;
      this.hash := hash;
      new;
      EmptyWellFormed(nodes, buckets[..], chains, hash);
    }

    /** One step of the copy loop: a new node with null `next` goes after the last node `prev`
        of chain `i`, or into the bucket when the chain is empty. */
    method AppendNode(i: nat, key: K, value: V, prev: Option<nat>) returns (node: nat)
      requires bucketCount == buckets.Length == |chains| && i < bucketCount
      requires WellFormed(nodes, buckets[..], chains, hash)
      requires hash(key) % bucketCount == i
      requires forall j :: 0 <= j < |chains[i]| ==> chains[i][j] < |nodes| && nodes[chains[i][j]].key != key
      requires prev == (if chains[i] == [] then None else Some(chains[i][|chains[i]| - 1]))
      modifies this, buckets
      ensures bucketCount == old(bucketCount) && hash == old(hash) && buckets == old(buckets)
      ensures size == old(size) && head == old(head) && node == |old(nodes)|
      ensures WellFormed(nodes, buckets[..], chains, hash)
      ensures nodes == if prev.None? then old(nodes) + [HashNode(key, value, None)]
                       else (old(nodes) + [HashNode(key, value, None)])[prev.value := old(nodes)[prev.value].(next := Some(node))]
      ensures buckets[..] == if prev.None? then old(buckets[..])[i := Some(node)] else old(buckets[..])
      ensures chains == old(chains)[i := old(chains)[i] + [node]]
      ensures forall s :: 0 <= s < node ==> nodes[s].key == old(nodes)[s].key && nodes[s].value == old(nodes)[s].value
      ensures nodes[node] == HashNode(key, value, None)
    {
      node := |nodes|;
      ghost var c := chains[i];
      ghost var nodes' := if c == [] then nodes + [HashNode(key, value, None)]
                          else (nodes + [HashNode(key, value, None)])[c[|c| - 1] := nodes[c[|c| - 1]].(next := Some(node))];
      ghost var bs' := if c == [] then buckets[..][i := Some(node)] else buckets[..];
      assert WellFormed(nodes', bs', chains[i := c + [node]], hash) by {
        AppendKeeps(nodes, buckets[..], chains, hash, i, key, value, nodes', bs');
      }
      nodes := nodes + [HashNode(key, value, None)];
      if prev.None? {
        buckets[i] := Some(node);
      } else {
        nodes := nodes[prev.value := nodes[prev.value].(next := Some(node))];
      }
      assert nodes == nodes' && buckets[..] == bs';
      chains := chains[i := c + [node]];
    }

    /** One iteration of the copy loop: append a copy of node `oc[k]` of the arena `onodes`
        of the source map after the `k` copies already made, which occupy this arena from
        `s0` on; the first copy of the bucket becomes the head when `isHead` is set. */
    method CopyNode(i: nat, ghost onodes: seq<HashNode<K, V>>, ghost oc: seq<nat>, ghost k: nat,
                    ghost s0: nat, key: K, value: V, isHead: bool, prev: Option<nat>)
      returns (node: nat, isHead': bool)
      requires bucketCount == buckets.Length == |chains| && i < bucketCount
      requires k < |oc| && oc[k] < |onodes| && onodes[oc[k]].key == key && onodes[oc[k]].value == value
      requires hash(key) % bucketCount == i
      requires forall j :: 0 <= j < k ==> oc[j] < |onodes| && onodes[oc[j]].key != key
      requires WellFormed(nodes, buckets[..], chains, hash)
      requires |nodes| == s0 + k && chains[i] == Range(s0, s0 + k)
      requires prev == (if k == 0 then None else Some(s0 + k - 1))
      requires SamePairs(nodes, chains[i], onodes, oc[..k])
      modifies this, buckets
      ensures bucketCount == old(bucketCount) && hash == old(hash) && buckets == old(buckets)
      ensures size == old(size) && WellFormed(nodes, buckets[..], chains, hash)
      ensures node == s0 + k && |nodes| == s0 + k + 1 && nodes[..s0] == old(nodes)[..s0]
      ensures chains == old(chains)[i := Range(s0, s0 + k + 1)]
      ensures SamePairs(nodes, chains[i], onodes, oc[..k + 1])
      ensures isHead' == (isHead && prev.Some?)
      ensures head == (if isHead && prev.None? then Some(node) else old(head))
    {
      ghost var c, nodes0 := chains[i], nodes;
      CopiedKeysDiffer(nodes, c, onodes, oc, k, key);
      isHead' := isHead;
      if prev.None? && isHead' {
        head := Some(|nodes|);
        isHead' := false;
      }
      node := AppendNode(i, key, value, prev);
      assert SamePairs(nodes, chains[i], onodes, oc[..k + 1]) by {
        assert oc[..k + 1] == oc[..k] + [oc[k]];
        SamePairsAppend(nodes0, nodes, c, onodes, oc[..k], oc[k]);
      }
      RangeSnoc(s0, s0 + k);
    }

    /** The inner loop of both copy operations: append copies of the nodes of bucket `i` of
        `other`, in chain order, as the chain of bucket `i` here. The first copy becomes the
        head when `isHead` is set; the result says whether it still is. */
    method CopyBucket(other: UnorderedMap<K, V>, i: nat, isHead: bool) returns (isHead': bool)
      requires other != this && other.Valid() && buckets != other.buckets
      requires bucketCount == other.bucketCount == buckets.Length == |chains| && hash == other.hash
      requires i < bucketCount && WellFormed(nodes, buckets[..], chains, hash)
      requires forall x :: i <= x < bucketCount ==> chains[x] == []
      modifies this, buckets
      ensures bucketCount == old(bucketCount) && hash == old(hash) && buckets == old(buckets)
      ensures size == old(size) && WellFormed(nodes, buckets[..], chains, hash)
      ensures |nodes| == |old(nodes)| + |other.chains[i]| && nodes[..|old(nodes)|] == old(nodes)
      ensures chains == old(chains)[i := Range(|old(nodes)|, |nodes|)]
      ensures SamePairs(nodes, chains[i], other.nodes, other.chains[i])
      ensures isHead' == (isHead && other.chains[i] == [])
      ensures head == (if isHead && other.chains[i] != [] then Some(|old(nodes)|) else old(head))
    {
      ghost var oc, s0 := other.chains[i], |nodes|;
      BucketHead(other.nodes, other.buckets[..], other.chains, hash, i);
      var prev: Option<nat> := None;
      var curr := other.buckets[i];
      isHead' := isHead;
      ghost var k := 0;
      while curr.Some?
        invariant buckets == old(buckets) && bucketCount == buckets.Length == |chains|
        invariant hash == old(hash) && size == old(size)
        invariant k <= |oc| && curr == (if k < |oc| then Some(oc[k]) else None)
        invariant |nodes| == s0 + k && nodes[..s0] == old(nodes)
        invariant chains == old(chains)[i := Range(s0, s0 + k)]
        invariant prev == (if k == 0 then None else Some(s0 + k - 1))
        invariant SamePairs(nodes, chains[i], other.nodes, oc[..k])
        invariant WellFormed(nodes, buckets[..], chains, hash)
        invariant isHead' == (isHead && k == 0)
        invariant head == (if isHead && k > 0 then Some(s0) else old(head))
        decreases |oc| - k
      {
        CopySource(other.nodes, other.buckets[..], other.chains, hash, i, k);
        var src := other.nodes[curr.value];
        var node;
        node, isHead' := CopyNode(i, other.nodes, oc, k, s0, src.key, src.value, isHead', prev);
        assert node == s0 + (k + 1) - 1;
        prev := Some(node);
        curr := src.next;
        k := k + 1;
      }
      assert oc[..k] == oc;
    }

    /** The state of the outer copy loop once buckets `0` to `i - 1` of `other` are copied:
        the arena is `before` followed by the copies, in traversal order; the buckets from `i`
        on are still empty; and the head is the first copy (one flag for the whole copy) or
        the front of the last non-empty bucket copied so far (the flag reset per bucket). */
    ghost predicate Copying(other: UnorderedMap<K, V>, i: nat, before: seq<HashNode<K, V>>,
                            oldHead: Option<nat>, perBucket: bool, isHead: bool)
      reads this, buckets, other
    {
      && i <= bucketCount == buckets.Length == |chains| == |other.chains|
      && |before| <= |nodes| && nodes[..|before|] == before
      && WellFormed(nodes, buckets[..], chains, hash)
      && (forall x :: i <= x < bucketCount ==> chains[x] == [])
      && (forall x :: 0 <= x < i ==> SamePairs(nodes, chains[x], other.nodes, other.chains[x]))
      && Flatten(chains) == Range(|before|, |nodes|)
      && |nodes| - |before| == |Concat(other.chains, 0, i)|
      && (!perBucket ==> isHead == (|nodes| == |before|))
      && (!perBucket ==> head == (if |nodes| == |before| then oldHead else Some(|before|)))
      && (perBucket ==> isHead)
      && (perBucket ==> head == (if |nodes| == |before| then oldHead else LastFront(chains, i)))
    }

    /** One iteration of the outer copy loop: copy bucket `i`. */
    method CopyNext(other: UnorderedMap<K, V>, i: nat, ghost before: seq<HashNode<K, V>>,
                    ghost oldHead: Option<nat>, perBucket: bool, isHead: bool)
      returns (isHead': bool)
      requires other != this && other.Valid() && buckets != other.buckets
      requires bucketCount == other.bucketCount && hash == other.hash && i < bucketCount
      requires Copying(other, i, before, oldHead, perBucket, isHead)
      modifies this, buckets
      ensures bucketCount == old(bucketCount) && hash == old(hash) && buckets == old(buckets)
      ensures size == old(size)
      ensures Copying(other, i + 1, before, oldHead, perBucket, isHead')
    {
      ghost var s0 := |before|;
      ghost var nodes0, chains0 := nodes, chains;
      isHead' := CopyBucket(other, i, if perBucket then true else isHead);
      if perBucket {
        isHead' := true;
      }
      forall x | 0 <= x < i
        ensures SamePairs(nodes, chains[x], other.nodes, other.chains[x])
      {
        assert chains[x] == chains0[x];
        SamePairsGrow(nodes0, nodes, chains[x], other.nodes, other.chains[x]);
      }
      FlattenFillLast(chains0, i, Range(|nodes0|, |nodes|));
      RangeJoin(s0, |nodes0|, |nodes|);
      LastFrontUpdate(chains0, i, chains[i], i);
    }

    /** The outer loop of both copy operations: copy every bucket of `other`, in ascending
        order, into an all-empty map of the same shape. With `perBucket` unset a single
        `isHead` flag covers the whole copy (the copy constructor); with it set the flag is
        reset for every bucket (the copy assignment). */
    method CopyBuckets(other: UnorderedMap<K, V>, perBucket: bool)
      requires other != this && other.Valid() && buckets != other.buckets
      requires bucketCount == other.bucketCount == buckets.Length == |chains| && hash == other.hash
      requires size == other.size
      requires forall x :: 0 <= x < bucketCount ==> buckets[x] == None && chains[x] == []
      modifies this, buckets
      ensures bucketCount == old(bucketCount) && hash == old(hash) && buckets == old(buckets)
      ensures Valid() && size == old(size) && |old(nodes)| <= |nodes| && nodes[..|old(nodes)|] == old(nodes)
      ensures forall x :: 0 <= x < bucketCount ==> SamePairs(nodes, chains[x], other.nodes, other.chains[x])
      ensures Traversal() == Range(|old(nodes)|, |nodes|)
      ensures !perBucket ==> head == (if other.size == 0 then old(head) else Some(|old(nodes)|))
      ensures perBucket ==> head == (if other.size == 0 then old(head) else LastFront(chains, bucketCount))
    {
      CopyStart(other, perBucket);
      var isHead := true;
      var i := 0;
      while i < bucketCount
        invariant buckets == old(buckets) && bucketCount == old(bucketCount)
        invariant hash == old(hash) && size == old(size)
        invariant Copying(other, i, old(nodes), old(head), perBucket, isHead)
      {
        isHead := CopyNext(other, i, old(nodes), old(head), perBucket, isHead);
        i := i + 1;
      }
      CopyDone(other, old(nodes), old(head), perBucket, isHead);
    }

    /** An all-empty map is the starting state of the outer copy loop. */
    lemma CopyStart(other: UnorderedMap<K, V>, perBucket: bool)
      requires other.Valid() && bucketCount == other.bucketCount == buckets.Length == |chains|
      requires forall x :: 0 <= x < bucketCount ==> buckets[x] == None && chains[x] == []
      ensures Copying(other, 0, nodes, head, perBucket, true)
    {
      EmptyWellFormed(nodes, buckets[..], chains, hash);
    }

    /** After the last bucket, the copy is a valid map of the same size, traversed in the
        order of the copies. */
    lemma CopyDone(other: UnorderedMap<K, V>, before: seq<HashNode<K, V>>, oldHead: Option<nat>,
                   perBucket: bool, isHead: bool)
      requires other.Valid() && size == other.size
      requires Copying(other, bucketCount, before, oldHead, perBucket, isHead)
      ensures Valid() && |before| <= |nodes| && nodes[..|before|] == before
      ensures forall x :: 0 <= x < bucketCount ==> SamePairs(nodes, chains[x], other.nodes, other.chains[x])
      ensures Traversal() == Range(|before|, |nodes|)
      ensures !perBucket ==> head == (if other.size == 0 then oldHead else Some(|before|))
      ensures perBucket ==> head == (if other.size == 0 then oldHead else LastFront(chains, bucketCount))
    {
      assert Concat(other.chains, 0, bucketCount) == Flatten(other.chains);
      if other.size == 0 {
        FlattenEmpty(other.chains);
      }
    }

    /** Copy constructor: same hash and bucket count, copies of every node of `other` in
        fresh slots, kept in the same chains in the same order. The head is the first copy;
        a copy of an empty map leaves it unassigned. */
    constructor Copy(other: UnorderedMap<K, V>)
      requires other.Valid()
      ensures Valid() && fresh(buckets)
      ensures bucketCount == other.bucketCount && hash == other.hash && size == other.size
      ensures forall x :: 0 <= x < bucketCount ==> SamePairs(nodes, chains[x], other.nodes, other.chains[x])
      ensures Traversal() == Range(0, |nodes|)
      ensures other.size > 0 ==> HeadReadable() && HeadFirst()
    {
      bucketCount := other.bucketCount;
      hash := other.hash;
      buckets := new Option<nat>[other.bucketCount](_ => None);
      nodes := [];
      chains := seq(other.bucketCount, _ => []);
      size := other.size;
      new;
      CopyBuckets(other, false);
      if other.size > 0 {
        FlattenEmpty(chains);
      }
    }

    /** Move constructor: take over the buckets, the nodes, the count and the head of `other`,
        which is left with a fresh empty bucket array of its bucket count. */
    constructor Move(other: UnorderedMap<K, V>)
      requires other.Valid()
      modifies other
      ensures Valid() && buckets == old(other.buckets) && bucketCount == old(other.bucketCount)
      ensures hash == old(other.hash) && nodes == old(other.nodes) && chains == old(other.chains)
      ensures size == old(other.size) && head == old(other.head)
      ensures other.Valid() && fresh(other.buckets) && other.bucketCount == old(other.bucketCount)
      ensures other.hash == old(other.hash) && other.size == 0 && other.head == None && other.Traversal() == []
    {
      bucketCount := other.bucketCount;
      hash := other.hash;
      buckets := other.buckets;
      nodes := other.nodes;
      chains := other.chains;
      size := other.size;
      head := other.head;
      new;
      other.Reset();
    }

    /** The moved-from state: a fresh bucket array of the same length, nothing in it. */
    method Reset()
      requires bucketCount > 0
      modifies this
      ensures Valid() && fresh(buckets) && bucketCount == old(bucketCount) && hash == old(hash)
      ensures nodes == old(nodes) && size == 0 && head == None && Traversal() == []
    {
      buckets := new Option<nat>[bucketCount](_ => None);
      chains := seq(bucketCount, _ => []);
      size := 0;
      head := None;
      EmptyWellFormed(nodes, buckets[..], chains, hash);
    }

    /** Copy assignment: nothing happens on self-assignment; otherwise the map is cleared, takes
        a fresh bucket array of `other`'s bucket count, and gets copies of `other`'s nodes.
        The `isHead` flag is reset for every bucket, so the head ends up at the first copy in
        the LAST non-empty bucket, and an empty `other` leaves the old head in place. */
    method CopyAssign(other: UnorderedMap<K, V>)
      requires Valid() && other.Valid() && (this != other ==> buckets != other.buckets)
      modifies this, buckets
      ensures this == other ==> unchanged(this) && buckets[..] == old(buckets[..])
      ensures this != other ==> (Valid() && fresh(buckets) && bucketCount == other.bucketCount
                                 && hash == other.hash && size == other.size)
      ensures this != other ==> |old(nodes)| <= |nodes| && Traversal() == Range(|old(nodes)|, |nodes|)
      ensures this != other ==> forall x :: 0 <= x < bucketCount ==> SamePairs(nodes, chains[x], other.nodes, other.chains[x])
      ensures this != other ==> head == (if other.size == 0 then old(head) else LastFront(chains, bucketCount))
    {
      if this != other {
        Clear();
        Rebuild(other);
        CopyBuckets(other, true);
      }
    }

    /** What both copy assignments do before copying: take `other`'s hash, bucket count and
        size, and a fresh all-empty bucket array. */
    method Rebuild(other: UnorderedMap<K, V>)
      requires other != this && other.Valid()
      modifies this
      ensures fresh(buckets) && bucketCount == other.bucketCount == buckets.Length == |chains|
      ensures hash == other.hash && size == other.size && nodes == old(nodes) && head == old(head)
      ensures forall x :: 0 <= x < bucketCount ==> buckets[x] == None && chains[x] == []
    {
      hash := other.hash;
      bucketCount := other.bucketCount;
      buckets := new Option<nat>[bucketCount](_ => None);
      chains := seq(bucketCount, _ => []);
      size := other.size;
    }

    /** Copy assignment with the head computed as the copy constructor computes it: cleared
        first, then set by the first copy overall. */
    method CopyAssignCorrected(other: UnorderedMap<K, V>)
      requires Valid() && other.Valid() && (this != other ==> buckets != other.buckets)
      modifies this, buckets
      ensures this == other ==> unchanged(this) && buckets[..] == old(buckets[..])
      ensures this != other ==> (Valid() && fresh(buckets) && bucketCount == other.bucketCount
                                 && hash == other.hash && size == other.size)
      ensures this != other ==> |old(nodes)| <= |nodes| && Traversal() == Range(|old(nodes)|, |nodes|)
      ensures this != other ==> forall x :: 0 <= x < bucketCount ==> SamePairs(nodes, chains[x], other.nodes, other.chains[x])
      ensures this != other ==> HeadReadable() && HeadFirst()
    {
      if this != other {
        Clear();
        Rebuild(other);
        head := None;
        CopyBuckets(other, false);
        if other.size > 0 {
          FlattenEmpty(chains);
        }
      }
    }

    /** Move assignment: nothing happens on self-assignment; otherwise the map is cleared and
        takes over `other`'s content, and `other` is left empty with a fresh bucket array. */
    method MoveAssign(other: UnorderedMap<K, V>)
      requires Valid() && other.Valid() && (this != other ==> buckets != other.buckets)
      modifies this, buckets, other
      ensures this == other ==> unchanged(this) && buckets[..] == old(buckets[..])
      ensures this != other ==> (Valid() && buckets == old(other.buckets) && bucketCount == old(other.bucketCount)
                                 && hash == old(other.hash) && nodes == old(other.nodes) && chains == old(other.chains)
                                 && size == old(other.size) && head == old(other.head))
      ensures this != other ==> (other.Valid() && fresh(other.buckets) && other.bucketCount == old(other.bucketCount)
                                 && other.hash == old(other.hash) && other.size == 0 && other.head == None
                                 && other.Traversal() == [])
    {
      if this != other {
        Clear();
        bucketCount := other.bucketCount;
        hash := other.hash;
        buckets := other.buckets;
        nodes := other.nodes;
        chains := other.chains;
        size := other.size;
        head := other.head;
        other.Reset();
      }
    }
  }
}

/** The helpers of Dijkstra's algorithm: edge relaxation, the infinite distance, source
    initialisation and the comparator that turns the priority queue into a min-queue. The
    distance map and the predecessor map are values the operations return updated. */
module DijkstrasHelpers {
  import opened Wrappers
  import opened Graphs
  import PriorityQueues

  /** `infinity()`: the largest value of the weight type, a 32-bit `int`. */
  const Infinity: int := 0x7FFF_FFFF

  /** A value of the weight type. */
  predicate IsWeight(x: int)
  {
    -0x8000_0000 <= x <= Infinity
  }

  /** No weight exceeds infinity. */
  lemma InfinityIsMaximum(x: int)
    requires IsWeight(x)
    ensures x <= Infinity && IsWeight(Infinity)
  {
  }

  /** `predecessors[v]` through `operator[]`: a missing key reads as `std::nullopt`. */
  function Pred(p: map<int, Option<int>>, v: int): (r: Option<int>)
    ensures v in p ==> r == p[v]
    ensures v !in p ==> r == None
  {
    if v in p then p[v] else None
  }

  /** `relax(u, v, w, distances, predecessors)`. `distances[u]` and `distances[v]` insert a
      zero entry for a missing key, which `Get` already reads as zero; the edge is no longer
      tense afterwards unless it is a negative self-loop. */
  method Relax(u: int, v: int, w: int, d: map<int, int>, p: map<int, Option<int>>)
    returns (relaxed: bool, d': map<int, int>, p': map<int, Option<int>>)
    ensures relaxed <==> Get(d, u) + w < Get(d, v)
    ensures forall x :: Get(d', x) == if relaxed && x == v then Get(d, u) + w else Get(d, x)
    ensures forall x :: Pred(p', x) == if relaxed && x == v then Some(u) else Pred(p, x)
    ensures d'.Keys == d.Keys + {u, v}
    ensures p'.Keys == if relaxed then p.Keys + {v} else p.Keys
    ensures forall x :: Get(d', x) <= Get(d, x)
    ensures u != v || w >= 0 ==> Get(d', v) <= Get(d', u) + w
  {
    d' := if u in d then d else d[u := 0];
    var newDist := d'[u] + w;
    d' := if v in d' then d' else d'[v := 0];
    if newDist < d'[v] {
      d' := d'[v := newDist];
      p' := p[v := Some(u)];
      return true, d', p';
    }
    return false, d', p;
  }

  /** The result of `initializeSingleSource`: the two maps as the loop left them, and whether
      `distances.at(initial_node)` threw. */
  datatype Initialized = Initialized(d: map<int, int>, p: map<int, Option<int>>, error: Option<Error>)

  /** The loop of `initializeSingleSource`: every vertex of the graph gets an infinite
      distance and no predecessor; every other entry is kept. */
  method ResetVertices(g: Graph, d: map<int, int>, p: map<int, Option<int>>)
    returns (d': map<int, int>, p': map<int, Option<int>>)
    ensures forall v :: (v in d' <==> v in d || v in g) && (v in p' <==> v in p || v in g)
    ensures forall v :: v in g ==> d'[v] == Infinity && p'[v] == None
    ensures forall v :: v in d && v !in g ==> d'[v] == d[v]
    ensures forall v :: v in p && v !in g ==> p'[v] == p[v]
  {
    d', p' := d, p;
    var rest := g.Keys;
    ghost var done: set<int> := {};
    while |rest| > 0
      invariant rest <= g.Keys && done == g.Keys - rest
      invariant forall v :: (v in d' <==> v in d || v in done) && (v in p' <==> v in p || v in done)
      invariant forall v :: v in done ==> d'[v] == Infinity && p'[v] == None
      invariant forall v :: v in d && v !in done ==> d'[v] == d[v]
      invariant forall v :: v in p && v !in done ==> p'[v] == p[v]
      decreases rest
    {
      SetSums.Occupied(rest);
      var vertex :| vertex in rest;
      SetSums.Moved(g.Keys, rest, vertex);
      d' := d'[vertex := Infinity];
      p' := p'[vertex := None];
      rest := rest - {vertex};
      done := done + {vertex};
    }
  }

  /** `initializeSingleSource(graph, initial_node, distances, predecessors)`: after resetting
      the vertices, the source gets distance zero; `at` throws `std::out_of_range` when the
      source has no entry, which leaves the reset maps behind. */
  method InitializeSingleSource(g: Graph, source: int, d: map<int, int>, p: map<int, Option<int>>)
    returns (r: Initialized)
    ensures r.error == None <==> source in d || source in g
    ensures r.error != None ==> r.error == Some(OutOfRange) && source !in r.d
    ensures forall v :: (v in r.d <==> v in d || v in g) && (v in r.p <==> v in p || v in g)
    ensures r.error == None ==> r.d[source] == 0
    ensures forall v :: v in g && v != source ==> r.d[v] == Infinity
    ensures forall v :: v in g ==> r.p[v] == None
    ensures forall v :: v in d && v !in g && v != source ==> r.d[v] == d[v]
    ensures forall v :: v in p && v !in g ==> r.p[v] == p[v]
  {
    var d', p' := ResetVertices(g, d, p);
    if source !in d' {
      return Initialized(d', p', Some(OutOfRange));
    }
    return Initialized(d'[source := 0], p', None);
  }

  /** `DijkstraComparator(distances)(a, b)`: whether `a` is farther than `b`; `at` throws
      `std::out_of_range` for a vertex without a distance. */
  function Compare(d: map<int, int>, a: int, b: int): (r: Result<bool>)
    ensures r.Failure? <==> a !in d || b !in d
    ensures r.Failure? ==> r.error == OutOfRange
    ensures r.Success? ==> (r.value <==> d[a] > d[b])
  {
    if a !in d || b !in d then Failure(OutOfRange) else Success(d[a] > d[b])
  }

  /** A heap of vertices under the comparator: no parent compares greater than its child,
      which is how `std::priority_queue` keeps its container. */
  ghost predicate IsHeapUnder(d: map<int, int>, s: seq<int>)
  {
    forall i :: 0 < i < |s| ==> Compare(d, s[PriorityQueues.Parent(i)], s[i]) == Success(false)
  }

  /** The distances of the vertices of `s`, negated: the heap under the comparator is a max-heap
      of these. */
  function Negated(d: map<int, int>, s: seq<int>): (r: seq<int>)
    requires forall i :: 0 <= i < |s| ==> s[i] in d
    ensures |r| == |s| && forall i :: 0 <= i < |s| ==> r[i] == -d[s[i]]
  {
    if s == [] then [] else Negated(d, s[..|s| - 1]) + [-d[s[|s| - 1]]]
  }

  /** The top of a heap under the comparator is a vertex of least distance: it compares
      greater than no vertex in the queue. */
  lemma NearestOnTop(d: map<int, int>, s: seq<int>)
    requires s != [] && forall i :: 0 <= i < |s| ==> s[i] in d
    requires IsHeapUnder(d, s)
    ensures forall i :: 0 <= i < |s| ==> d[s[0]] <= d[s[i]] && Compare(d, s[0], s[i]) == Success(false)
  {
    var n := Negated(d, s);
    assert PriorityQueues.IsHeap(n) by {
      forall i | 0 < i < |n|
        ensures n[i] <= n[PriorityQueues.Parent(i)]
      {
        assert Compare(d, s[PriorityQueues.Parent(i)], s[i]) == Success(false);
      }
    }
    forall i | 0 <= i < |s|
      ensures d[s[0]] <= d[s[i]]
    {
      PriorityQueues.BelowTop(n, i);
    }
  }
}

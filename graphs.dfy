/** Weighted directed graphs as the graph algorithms see them: every vertex maps to its
    adjacency list of `(target, weight)` pairs, in iteration order, duplicates allowed.
    Vertices and weights are integers. */
module Graphs {
  import opened SetSums

  type Edge = (int, int)
  type Graph = map<int, seq<Edge>>

  /** Every edge ends at a vertex of the graph. */
  ghost predicate WellFormed(g: Graph)
  {
    forall u, j :: u in g && 0 <= j < |g[u]| ==> g[u][j].0 in g
  }

  /** No edge weighs less than zero: the graphs Dijkstra's algorithm is meant for. */
  ghost predicate NonNegative(g: Graph)
  {
    forall u, j :: u in g && 0 <= j < |g[u]| ==> g[u][j].1 >= 0
  }

  /** `m[k]` through `operator[]` on a map whose mapped type is a number: a missing key reads
      as zero. */
  function Get(m: map<int, int>, k: int): (r: int)
    ensures k in m ==> r == m[k]
    ensures k !in m ==> r == 0
  {
    if k in m then m[k] else 0
  }

  /** How many edges of `adj` end at `v`. */
  function Count(adj: seq<Edge>, v: int): (r: nat)
    ensures r <= |adj|
  {
    if adj == [] then 0
    else Count(adj[..|adj| - 1], v) + (if adj[|adj| - 1].0 == v then 1 else 0)
  }

  /** `v` is counted exactly when some edge of `adj` ends at it. */
  lemma {:induction false} CountPositive(adj: seq<Edge>, v: int)
    ensures Count(adj, v) > 0 <==> exists j :: 0 <= j < |adj| && adj[j].0 == v
  {
    if adj != [] {
      var front := adj[..|adj| - 1];
      CountPositive(front, v);
      if Count(front, v) > 0 {
        var j :| 0 <= j < |front| && front[j].0 == v;
        assert adj[j].0 == v;
      }
      if exists j :: 0 <= j < |adj| && adj[j].0 == v {
        var j :| 0 <= j < |adj| && adj[j].0 == v;
        if j < |front| {
          assert front[j].0 == v;
        }
      }
    }
  }

  /** Extending a prefix by one edge counts that edge. */
  lemma CountPrefix(adj: seq<Edge>, j: nat, v: int)
    requires j < |adj|
    ensures Count(adj[..j + 1], v) == Count(adj[..j], v) + (if adj[j].0 == v then 1 else 0)
    ensures Count(adj[..j + 1], v) <= Count(adj, v)
  {
    assert adj[..j + 1][..j] == adj[..j];
    CountPrefixBound(adj, j + 1, v);
  }

  /** A prefix has no more edges to `v` than the whole list. */
  lemma {:induction false} CountPrefixBound(adj: seq<Edge>, j: nat, v: int)
    requires j <= |adj|
    ensures Count(adj[..j], v) <= Count(adj, v)
    decreases |adj| - j
  {
    if j < |adj| {
      CountPrefixBound(adj, j + 1, v);
      assert adj[..j + 1][..j] == adj[..j];
    } else {
      assert adj[..j] == adj;
    }
  }

  /** Edges from `u` to `v`. */
  function EdgeCount(g: Graph, u: int, v: int): (r: nat)
  {
    if u in g then Count(g[u], v) else 0
  }

  /** `u` is the source of an edge to `v`: some entry of `u`'s adjacency list targets `v`. */
  lemma EdgeCountPositive(g: Graph, u: int, v: int)
    ensures EdgeCount(g, u, v) > 0 <==> u in g && exists j :: 0 <= j < |g[u]| && g[u][j].0 == v
  {
    if u in g {
      CountPositive(g[u], v);
    }
  }

  /** The number of edges from `u` into each vertex. */
  function OutOf(g: Graph, u: int): int -> int
  {
    v => EdgeCount(g, u, v)
  }

  /** The edges into `v` whose source is in `s`, each named by its source and its position in
      the source's adjacency list. */
  ghost function EdgesInto(g: Graph, s: set<int>, v: int): set<(int, int)>
  {
    set u, j | u in s && u in g && 0 <= j < |g[u]| && g[u][j].0 == v :: (u, j)
  }

  /** The number of edges into `v` whose source is in `s`. */
  ghost function InFrom(g: Graph, s: set<int>, v: int): int
  {
    |EdgesInto(g, s, v)|
  }

  /** The in-degree of `v`: edges into it over all adjacency lists, duplicates counted. */
  ghost function InDegree(g: Graph, v: int): int
  {
    InFrom(g, g.Keys, v)
  }

  /** `InFrom` for each vertex. */
  ghost function InFromAll(g: Graph, s: set<int>): int -> int
  {
    v => InFrom(g, s, v)
  }

  /** The length of each adjacency list. */
  function OutDegree(g: Graph): int -> int
  {
    u => if u in g then |g[u]| else 0
  }

  /** The positions in `adj` of the edges into `v`, tagged with their source `u`. */
  ghost function Positions(u: int, adj: seq<Edge>, v: int): set<(int, int)>
  {
    set j | 0 <= j < |adj| && adj[j].0 == v :: (u, j)
  }

  /** There are as many such positions as edges of `adj` into `v`. */
  lemma {:induction false} PositionsCount(u: int, adj: seq<Edge>, v: int)
    ensures |Positions(u, adj, v)| == Count(adj, v)
    decreases |adj|
  {
    if adj == [] {
      assert Positions(u, adj, v) == {};
    } else {
      var n := |adj| - 1;
      var front := adj[..n];
      PositionsCount(u, front, v);
      if adj[n].0 == v {
        assert Positions(u, adj, v) == Positions(u, front, v) + {(u, n)};
      } else {
        assert Positions(u, adj, v) == Positions(u, front, v);
      }
    }
  }

  /** The edges into `v` from `u` alone are counted by `EdgeCount`. */
  lemma SourceEdges(g: Graph, u: int, v: int)
    ensures InFrom(g, {u}, v) == EdgeCount(g, u, v)
  {
    if u in g {
      assert EdgesInto(g, {u}, v) == Positions(u, g[u], v);
      PositionsCount(u, g[u], v);
    } else {
      assert EdgesInto(g, {u}, v) == {};
    }
  }

  /** Adding a source to the counted set adds its edges. */
  lemma InFromInsert(g: Graph, s: set<int>, u: int, v: int)
    requires u !in s
    ensures InFrom(g, s + {u}, v) == InFrom(g, s, v) + EdgeCount(g, u, v)
  {
    var old_, new_ := EdgesInto(g, s, v), EdgesInto(g, {u}, v);
    assert EdgesInto(g, s + {u}, v) == old_ + new_;
    assert forall p :: p in old_ ==> p !in new_;
    assert old_ * new_ == {};
    SourceEdges(g, u, v);
  }

  /** Counting the sources in a subset of the vertices gives at most the in-degree; all of it
      exactly when no source lies outside the subset, and less exactly when one does. */
  lemma InFromBounds(g: Graph, s: set<int>, v: int)
    requires s <= g.Keys
    ensures 0 <= InFrom(g, s, v) <= InDegree(g, v)
    ensures InFrom(g, s, v) == InDegree(g, v) ==> forall u :: u in g && u !in s ==> EdgeCount(g, u, v) == 0
    ensures InFrom(g, s, v) < InDegree(g, v) ==> exists u :: u in g && u !in s && EdgeCount(g, u, v) > 0
  {
    var some, all := EdgesInto(g, s, v), EdgesInto(g, g.Keys, v);
    assert some <= all;
    SubsetCard(some, all);
    if |some| == |all| {
      forall u | u in g && u !in s
        ensures EdgeCount(g, u, v) == 0
      {
        CountPositive(g[u], v);
        forall j | 0 <= j < |g[u]|
          ensures g[u][j].0 != v
        {
          assert (u, j) !in some;
        }
      }
    }
    if |some| < |all| {
      OccupiedPairs(all - some);
      var p :| p in all - some;
      EdgeCountPositive(g, p.0, v);
    }
  }

  /** The in-degree is positive exactly when some vertex has an edge to `v`. */
  lemma InDegreePositive(g: Graph, v: int)
    ensures InDegree(g, v) >= 0
    ensures InDegree(g, v) > 0 <==> exists u :: u in g && EdgeCount(g, u, v) > 0
  {
    var all := EdgesInto(g, g.Keys, v);
    if |all| > 0 {
      OccupiedPairs(all);
      var p :| p in all;
      EdgeCountPositive(g, p.0, v);
    }
    if exists u :: u in g && EdgeCount(g, u, v) > 0 {
      var u :| u in g && EdgeCount(g, u, v) > 0;
      EdgeCountPositive(g, u, v);
      var j :| 0 <= j < |g[u]| && g[u][j].0 == v;
      assert (u, j) in all;
    }
  }

  /** Counting, over a set holding every target of `adj`, the edges of `adj` into each vertex
      counts every edge once. */
  lemma {:induction false} CountTotal(adj: seq<Edge>, vs: set<int>, f: int -> int)
    requires forall j :: 0 <= j < |adj| ==> adj[j].0 in vs
    requires forall v :: f(v) == Count(adj, v)
    ensures Sum(vs, f) == |adj|
    decreases |adj|
  {
    if adj == [] {
      SumZero(vs, f);
    } else {
      var front := adj[..|adj| - 1];
      var last := adj[|adj| - 1].0;
      var indicator := (v: int) => if v == last then 1 else 0;
      var rest := (v: int) => Count(front, v);
      CountTotal(front, vs, rest);
      SumIndicator(vs, indicator, last);
      SumAdd(vs, rest, indicator, f);
    }
  }

  /** Summing, over all vertices, the edges into each of them from the sources in `s` gives
      the total length of the adjacency lists of `s`. */
  lemma {:induction false} InFromTotal(g: Graph, s: set<int>)
    requires WellFormed(g) && s <= g.Keys
    ensures Sum(g.Keys, InFromAll(g, s)) == Sum(s, OutDegree(g))
    decreases s
  {
    if u :| u in s {
      InFromTotal(g, s - {u});
      InFromTotalStep(g, s, u);
    } else {
      InFromTotalEmpty(g, s);
    }
  }

  /** The inductive step of `InFromTotal`: take the source `u` out. */
  lemma InFromTotalStep(g: Graph, s: set<int>, u: int)
    requires WellFormed(g) && s <= g.Keys && u in s
    requires Sum(g.Keys, InFromAll(g, s - {u})) == Sum(s - {u}, OutDegree(g))
    ensures Sum(g.Keys, InFromAll(g, s)) == Sum(s, OutDegree(g))
  {
    InFromAllRemove(g, s, u);
    SumAdd(g.Keys, OutOf(g, u), InFromAll(g, s - {u}), InFromAll(g, s));
    OutOfTotal(g, u);
    SumRemove(s, OutDegree(g), u);
  }

  /** Taking the source `u` out of `s` removes its edges from every count. */
  lemma InFromAllRemove(g: Graph, s: set<int>, u: int)
    requires u in s
    ensures forall v :: InFromAll(g, s)(v) == OutOf(g, u)(v) + InFromAll(g, s - {u})(v)
  {
    assert s - {u} + {u} == s;
    forall v
      ensures InFromAll(g, s)(v) == OutOf(g, u)(v) + InFromAll(g, s - {u})(v)
    {
      InFromInsert(g, s - {u}, u, v);
    }
  }

  /** Over all vertices, the edges out of `u` add up to the length of its adjacency list. */
  lemma OutOfTotal(g: Graph, u: int)
    requires WellFormed(g) && u in g
    ensures Sum(g.Keys, OutOf(g, u)) == OutDegree(g)(u)
  {
    assert forall j :: 0 <= j < |g[u]| ==> g[u][j].0 in g.Keys;
    CountTotal(g[u], g.Keys, OutOf(g, u));
  }

  /** The base case of `InFromTotal`: no sources, no edges. */
  lemma InFromTotalEmpty(g: Graph, s: set<int>)
    requires forall u :: u !in s
    ensures Sum(g.Keys, InFromAll(g, s)) == Sum(s, OutDegree(g))
  {
    forall v | v in g.Keys
      ensures InFromAll(g, s)(v) == 0
    {
      assert EdgesInto(g, s, v) == {};
    }
    SumZero(g.Keys, InFromAll(g, s));
  }

  /** The in-degrees of a graph add up to its number of edges. */
  lemma InDegreesTotal(g: Graph)
    requires WellFormed(g)
    ensures Sum(g.Keys, InFromAll(g, g.Keys)) == Sum(g.Keys, OutDegree(g))
  {
    InFromTotal(g, g.Keys);
  }
}

/** `computeIndegrees`: one pass over the vertices to create their entries, then one pass over
    every adjacency list counting, through `operator[]`, the edges into each target. */
module TopSortHelpers {
  import opened SetSums
  import opened Graphs

  /** `v` ends some edge of `g`. */
  ghost predicate IsTarget(g: Graph, v: int)
  {
    exists u, j :: u in g && 0 <= j < |g[u]| && g[u][j].0 == v
  }

  /** A vertex has in-degree zero exactly when it ends no edge. */
  lemma InDegreeZero(g: Graph, v: int)
    ensures InDegree(g, v) >= 0
    ensures InDegree(g, v) == 0 <==> !IsTarget(g, v)
  {
    InDegreePositive(g, v);
    if InDegree(g, v) > 0 {
      var u :| u in g && EdgeCount(g, u, v) > 0;
      EdgeCountPositive(g, u, v);
    }
    if IsTarget(g, v) {
      var u, j :| u in g && 0 <= j < |g[u]| && g[u][j].0 == v;
      EdgeCountPositive(g, u, v);
    }
  }

  /** The entries after the first pass: zero for every vertex, the old entry elsewhere. */
  method ZeroVertices(g: Graph, indegrees: map<int, int>) returns (r: map<int, int>)
    ensures forall v :: v in r <==> v in indegrees || v in g
    ensures forall v :: Get(r, v) == if v in g then 0 else Get(indegrees, v)
  {
    r := indegrees;
    var rest := g.Keys;
    while |rest| > 0
      invariant rest <= g.Keys
      invariant forall v :: v in r <==> v in indegrees || v in g.Keys - rest
      invariant forall v :: Get(r, v) == if v in g.Keys - rest then 0 else Get(indegrees, v)
      decreases rest
    {
      Occupied(rest);
      var v :| v in rest;
      r := r[v := 0];
      rest := rest - {v};
    }
  }

  /** `indegrees[vertex] += 1` for every edge of `adj`: each target's entry, created as zero
      if missing, grows by the number of edges of `adj` into it. */
  method CountEdges(adj: seq<Edge>, indegrees: map<int, int>) returns (r: map<int, int>)
    ensures forall v :: v in r <==> v in indegrees || exists j :: 0 <= j < |adj| && adj[j].0 == v
    ensures forall v :: Get(r, v) == Get(indegrees, v) + Count(adj, v)
  {
    r := indegrees;
    var j := 0;
    while j < |adj|
      invariant j <= |adj|
      invariant forall v :: v in r <==> v in indegrees || exists k :: 0 <= k < j && adj[k].0 == v
      invariant forall v :: Get(r, v) == Get(indegrees, v) + Count(adj[..j], v)
    {
      var vertex := adj[j].0;
      forall v
        ensures Count(adj[..j + 1], v) == Count(adj[..j], v) + (if adj[j].0 == v then 1 else 0)
      {
        CountPrefix(adj, j, v);
      }
      r := r[vertex := Get(r, vertex) + 1];
      j := j + 1;
    }
    assert adj[..j] == adj;
  }

  /** What the second pass of `computeIndegrees` has done once the adjacency lists of `done`
      have been counted, starting from the entries `zeroed` of the first pass. */
  ghost predicate Counted(g: Graph, indegrees: map<int, int>, zeroed: map<int, int>,
                          done: set<int>, r: map<int, int>)
  {
    && (forall v :: v in r ==> v in indegrees || v in g || IsTarget(g, v))
    && (forall v :: v in zeroed ==> v in r)
    && (forall v :: Get(r, v) == Get(zeroed, v) + InFrom(g, done, v))
  }

  /** Counting the adjacency list of one more vertex. */
  lemma CountedStep(g: Graph, indegrees: map<int, int>, zeroed: map<int, int>, done: set<int>,
                    u: int, before: map<int, int>, r: map<int, int>)
    requires forall v :: v in zeroed ==> v in indegrees || v in g
    requires Counted(g, indegrees, zeroed, done, before) && u in g && u !in done
    requires forall v :: v in r <==> v in before || exists j :: 0 <= j < |g[u]| && g[u][j].0 == v
    requires forall v :: Get(r, v) == Get(before, v) + Count(g[u], v)
    ensures Counted(g, indegrees, zeroed, done + {u}, r)
  {
    forall v
      ensures Get(r, v) == Get(zeroed, v) + InFrom(g, done + {u}, v)
    {
      InFromInsert(g, done, u, v);
    }
    forall v | v in r
      ensures v in indegrees || v in g || IsTarget(g, v)
    {
      if v !in before {
        var j :| 0 <= j < |g[u]| && g[u][j].0 == v;
      }
    }
  }

  /** Once every adjacency list is counted, the entries are the in-degrees, and every target
      has one. */
  lemma CountedAll(g: Graph, indegrees: map<int, int>, zeroed: map<int, int>, r: map<int, int>)
    requires forall v :: v in zeroed <==> v in indegrees || v in g
    requires forall v :: Get(zeroed, v) == if v in g then 0 else Get(indegrees, v)
    requires Counted(g, indegrees, zeroed, g.Keys, r)
    ensures forall v :: v in r <==> v in indegrees || v in g || IsTarget(g, v)
    ensures forall v :: Get(r, v) == (if v in g then 0 else Get(indegrees, v)) + InDegree(g, v)
  {
    forall v | IsTarget(g, v)
      ensures v in r
    {
      InDegreeZero(g, v);
    }
  }

  /** The second pass of `computeIndegrees`: the adjacency list of every vertex, counted. */
  method CountAll(g: Graph, ghost indegrees: map<int, int>, zeroed: map<int, int>)
    returns (r: map<int, int>)
    requires forall v :: v in zeroed ==> v in indegrees || v in g
    ensures Counted(g, indegrees, zeroed, g.Keys, r)
  {
    r := zeroed;
    var rest := g.Keys;
    ghost var done: set<int> := {};
    while |rest| > 0
      invariant rest <= g.Keys && done == g.Keys - rest
      invariant Counted(g, indegrees, zeroed, done, r)
      decreases rest
    {
      Occupied(rest);
      var u :| u in rest;
      ghost var before := r;
      r := CountEdges(g[u], r);
      CountedStep(g, indegrees, zeroed, done, u, before, r);
      Moved(g.Keys, rest, u);
      rest := rest - {u};
      done := done + {u};
    }
    assert done == g.Keys;
  }

  /** `computeIndegrees(graph, indegrees)`: afterwards every vertex of the graph has an entry,
      and the entry of every vertex is its in-degree, added to what it held before only for
      keys that are not vertices. */
  method ComputeIndegrees(g: Graph, indegrees: map<int, int>) returns (r: map<int, int>)
    ensures forall v :: v in r <==> v in indegrees || v in g || IsTarget(g, v)
    ensures forall v :: Get(r, v) == (if v in g then 0 else Get(indegrees, v)) + InDegree(g, v)
  {
    var zeroed := ZeroVertices(g, indegrees);
    r := CountAll(g, indegrees, zeroed);
    CountedAll(g, indegrees, zeroed, r);
  }

  /** With every edge ending at a vertex and no entries beforehand, the entries are exactly
      the vertices and add up to the number of edges. */
  lemma IndegreesTotal(g: Graph, r: map<int, int>)
    requires WellFormed(g)
    requires forall v :: v in r <==> v in g || IsTarget(g, v)
    requires forall v :: Get(r, v) == InDegree(g, v)
    ensures r.Keys == g.Keys
    ensures Sum(g.Keys, v => Get(r, v)) == Sum(g.Keys, OutDegree(g))
  {
    forall v | v in r
      ensures v in g
    {
      if IsTarget(g, v) {
        var u, j :| u in g && 0 <= j < |g[u]| && g[u][j].0 == v;
      }
    }
    assert forall v :: v in g.Keys ==> Get(r, v) == InFromAll(g, g.Keys)(v);
    SumCongruent(g.Keys, v => Get(r, v), InFromAll(g, g.Keys));
    InDegreesTotal(g);
  }
}

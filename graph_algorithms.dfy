/** The graph routines: Kahn's topological sort, and Dijkstra's single-source shortest paths
    with the reconstruction of the path to one destination. Queues and result lists are
    sequences; the iteration order of the hash maps is left open by picking any remaining
    key. */
module GraphAlgorithms {
  import opened Wrappers
  import opened SetSums
  import opened Graphs
  import opened TopSortHelpers
  import opened GraphCycles
  import opened DijkstrasHelpers

  // ---------------------------------------------------------------------------------------
  // Topological sort

  /** The state of Kahn's loop once the vertices of `done` have been emitted: every entry is
      the number of edges into its vertex from vertices not yet emitted, and the queue holds,
      once each, the vertices whose entry has dropped to zero and that are not yet emitted. */
  ghost predicate Kahn(g: Graph, indegrees: map<int, int>, q: seq<int>, done: set<int>)
  {
    && done <= g.Keys
    && (forall v :: v in indegrees <==> v in g)
    && (forall v {:trigger indegrees[v]} :: v in g ==> indegrees[v] == InDegree(g, v) - InFrom(g, done, v))
    && (forall v {:trigger indegrees[v]} :: v in g ==> indegrees[v] >= 0)
    && (forall v {:trigger indegrees[v]} :: v in done ==> indegrees[v] == 0)
    && Distinct(q)
    && (forall v {:trigger indegrees[v]} {:trigger v in q} :: v in q <==> v in g && v !in done && indegrees[v] == 0)
  }

  /** The seeding loop of `topologicalSort`: every key whose in-degree is zero, once, in the
      map's iteration order. */
  method Sources(indegrees: map<int, int>) returns (q: seq<int>)
    ensures Distinct(q)
    ensures forall v :: v in q <==> v in indegrees && indegrees[v] == 0
  {
    q := [];
    var rest := indegrees.Keys;
    ghost var seen: set<int> := {};
    while |rest| > 0
      invariant rest <= indegrees.Keys && seen == indegrees.Keys - rest
      invariant Distinct(q)
      invariant forall v :: v in q <==> v in seen && indegrees[v] == 0
      decreases rest
    {
      Occupied(rest);
      var v :| v in rest;
      Moved(indegrees.Keys, rest, v);
      if indegrees[v] == 0 {
        q := q + [v];
      }
      rest := rest - {v};
      seen := seen + {v};
    }
  }

  /** Before any vertex is emitted, the computed in-degrees and the seeded queue are Kahn's
      starting state. */
  lemma KahnStart(g: Graph, indegrees: map<int, int>, q: seq<int>)
    requires WellFormed(g)
    requires forall v :: v in indegrees <==> v in g || IsTarget(g, v)
    requires forall v :: Get(indegrees, v) == InDegree(g, v)
    requires Distinct(q) && forall v :: v in q <==> v in indegrees && indegrees[v] == 0
    ensures Kahn(g, indegrees, q, {})
  {
    IndegreesTotal(g, indegrees);
    forall v | v in g
      ensures indegrees[v] >= 0
    {
      InDegreeZero(g, v);
    }
  }

  /** The state of the inner loop of `topologicalSort` after the first `j` edges out of the
      emitted vertex `u` have been released. */
  ghost predicate Releasing(g: Graph, done: set<int>, u: int, j: nat, indegrees: map<int, int>, q: seq<int>)
  {
    && u in g && j <= |g[u]| && done <= g.Keys && u !in done
    && (forall v :: v in indegrees <==> v in g)
    && (forall v {:trigger indegrees[v]} :: v in g ==>
          indegrees[v] == InDegree(g, v) - InFrom(g, done, v) - Count(g[u][..j], v))
    && (forall v {:trigger indegrees[v]} :: v in g ==> indegrees[v] >= 0)
    && (forall v {:trigger indegrees[v]} :: v in done + {u} ==> indegrees[v] == 0)
    && Distinct(q)
    && (forall v {:trigger indegrees[v]} {:trigger v in q} :: v in q <==> v in g && v !in done + {u} && indegrees[v] == 0)
  }

  /** Emitting the front of the queue keeps the result ordered and without repetitions: every
      edge into the front comes from a vertex already emitted. */
  lemma EmitFront(g: Graph, indegrees: map<int, int>, q: seq<int>, done: set<int>, res: seq<int>)
    requires Kahn(g, indegrees, q, done) && q != []
    requires done == Elems(res) && Distinct(res) && Ordered(g, res)
    ensures q[0] in g && q[0] !in done
    ensures Elems(res + [q[0]]) == done + {q[0]}
    ensures Distinct(res + [q[0]]) && Ordered(g, res + [q[0]])
    ensures Releasing(g, done, q[0], 0, indegrees, q[1..])
  {
    var vertex := q[0];
    assert vertex in q;
    assert indegrees[vertex] == 0;
    InFromBounds(g, done, vertex);
    forall u | EdgeCount(g, u, vertex) > 0
      ensures u in res
    {
      EdgeCountPositive(g, u, vertex);
    }
    AppendOrdered(g, res, vertex);
    AppendDistinct(res, vertex);
    PopFront(q);
    forall v
      ensures v in q[1..] <==> v in g && v !in done + {vertex} && indegrees[v] == 0
    {
      assert v in q <==> v in g && v !in done && indegrees[v] == 0;
    }
    assert g[vertex][..0] == [];
  }

  /** Releasing one more edge: its target's entry drops by one, and the target is queued when
      the entry reaches zero. */
  lemma ReleaseStep(g: Graph, done: set<int>, u: int, j: nat, indegrees: map<int, int>, q: seq<int>,
                    t: int, indegrees': map<int, int>, q': seq<int>)
    requires WellFormed(g) && Releasing(g, done, u, j, indegrees, q) && j < |g[u]|
    requires t == g[u][j].0 && t in indegrees
    requires indegrees' == indegrees[t := indegrees[t] - 1]
    requires q' == if indegrees[t] == 1 then q + [t] else q
    ensures Releasing(g, done, u, j + 1, indegrees', q')
  {
    DecrementSafe(g, done, u, j);
    CountStep(g, done, g[u], j, indegrees, indegrees');
    assert indegrees[t] >= 1;
    assert t !in q && t !in done + {u};
    forall v {:trigger indegrees'[v]} | v in g
      ensures indegrees'[v] >= 0 && (v in done + {u} ==> indegrees'[v] == 0)
    {
      if v != t {
        assert indegrees'[v] == indegrees[v];
      }
    }
    QueueStep(g, done + {u}, indegrees, q, t, indegrees', q');
  }

  /** Decrementing the entry of the target of edge `j` accounts for that edge. */
  lemma CountStep(g: Graph, done: set<int>, adj: seq<(int, int)>, j: nat,
                  indegrees: map<int, int>, indegrees': map<int, int>)
    requires j < |adj| && done <= g.Keys && forall v :: v in indegrees <==> v in g
    requires forall v {:trigger indegrees[v]} :: v in g ==>
               indegrees[v] == InDegree(g, v) - InFrom(g, done, v) - Count(adj[..j], v)
    requires adj[j].0 in g && adj[j].0 in indegrees && indegrees' == indegrees[adj[j].0 := indegrees[adj[j].0] - 1]
    ensures forall v :: v in g ==>
              indegrees'[v] == InDegree(g, v) - InFrom(g, done, v) - Count(adj[..j + 1], v)
  {
    forall v | v in g
      ensures indegrees'[v] == InDegree(g, v) - InFrom(g, done, v) - Count(adj[..j + 1], v)
    {
      CountPrefix(adj, j, v);
      assert indegrees[v] == InDegree(g, v) - InFrom(g, done, v) - Count(adj[..j], v);
    }
  }

  /** The queue tracks the zero entries across one decrement: the target joins the queue
      exactly when its entry reaches zero. */
  lemma QueueStep(g: Graph, emitted: set<int>, indegrees: map<int, int>, q: seq<int>,
                  t: int, indegrees': map<int, int>, q': seq<int>)
    requires forall v :: v in indegrees <==> v in g
    requires Distinct(q) && forall v {:trigger indegrees[v]} {:trigger v in q} ::
               v in q <==> v in g && v !in emitted && indegrees[v] == 0
    requires t in g && t !in emitted && indegrees[t] >= 1
    requires indegrees' == indegrees[t := indegrees[t] - 1]
    requires q' == if indegrees[t] == 1 then q + [t] else q
    ensures Distinct(q')
    ensures forall v :: v in q' <==> v in g && v !in emitted && indegrees'[v] == 0
  {
    forall v
      ensures v in q' <==> v in g && v !in emitted && indegrees'[v] == 0
    {
      assert v in q <==> v in g && v !in emitted && indegrees[v] == 0;
    }
    if q' != q {
      AppendDistinct(q, t);
    }
  }

  /** Once every edge out of `u` is released, `u` counts as emitted. */
  lemma ReleaseDone(g: Graph, done: set<int>, u: int, indegrees: map<int, int>, q: seq<int>)
    requires u in g && Releasing(g, done, u, |g[u]|, indegrees, q)
    ensures Kahn(g, indegrees, q, done + {u})
  {
    assert g[u][..|g[u]|] == g[u];
    forall v | v in g
      ensures indegrees[v] == InDegree(g, v) - InFrom(g, done + {u}, v)
    {
      InFromInsert(g, done, u, v);
      assert indegrees[v] == InDegree(g, v) - InFrom(g, done, v) - Count(g[u], v);
    }
    forall v
      ensures v in q <==> v in g && v !in done + {u} && indegrees[v] == 0
    {
      assert v in q <==> v in g && v !in done + {u} && indegrees[v] == 0;
    }
  }

  /** Every edge into `t` counted so far still leaves its entry non-negative. */
  lemma DecrementSafe(g: Graph, done: set<int>, u: int, j: nat)
    requires done <= g.Keys && u in g && u !in done && j < |g[u]|
    ensures InDegree(g, g[u][j].0) - InFrom(g, done, g[u][j].0) - Count(g[u][..j + 1], g[u][j].0) >= 0
  {
    var t := g[u][j].0;
    CountPrefix(g[u], j, t);
    InFromInsert(g, done, u, t);
    InFromBounds(g, done + {u}, t);
  }

  /** One iteration of the inner loop of `topologicalSort`: `indegrees[adjVertex] -= 1` for
      edge `j` out of `u`, and `q.push(adjVertex)` when that entry drops to zero. */
  method ReleaseOne(g: Graph, u: int, j: nat, indegrees: map<int, int>, q: seq<int>, ghost done: set<int>)
    returns (indegrees': map<int, int>, q': seq<int>)
    requires WellFormed(g) && Releasing(g, done, u, j, indegrees, q) && j < |g[u]|
    ensures Releasing(g, done, u, j + 1, indegrees', q')
    ensures q' == q || q' == q + [g[u][j].0]
  {
    var adjVertex := g[u][j].0;
    assert adjVertex in g;
    var entry := indegrees[adjVertex] - 1;
    indegrees' := indegrees[adjVertex := entry];
    q' := if entry == 0 then q + [adjVertex] else q;
    ReleaseStep(g, done, u, j, indegrees, q, adjVertex, indegrees', q');
  }

  /** Appending to a sequence keeps its prefixes. */
  lemma PrefixKept(q: seq<int>, q1: seq<int>, q2: seq<int>, x: int)
    requires |q| <= |q1| && q1[..|q|] == q
    requires q2 == q1 || q2 == q1 + [x]
    ensures |q| <= |q2| && q2[..|q|] == q
  {
    if q2 != q1 {
      assert q2[..|q|] == q1[..|q|];
    }
  }

  /** The inner loop of `topologicalSort`: every edge out of the emitted vertex `u` is
      released, and the targets whose entries drop to zero are queued behind the others. */
  method ReleaseTargets(g: Graph, u: int, indegrees: map<int, int>, q: seq<int>, ghost done: set<int>)
    returns (indegrees': map<int, int>, q': seq<int>)
    requires WellFormed(g) && Releasing(g, done, u, 0, indegrees, q)
    ensures Kahn(g, indegrees', q', done + {u})
    ensures |q| <= |q'| && q'[..|q|] == q
  {
    indegrees', q' := indegrees, q;
    var j := 0;
    while j < |g[u]|
      invariant j <= |g[u]| && Releasing(g, done, u, j, indegrees', q')
      invariant |q| <= |q'| && q'[..|q|] == q
    {
      ghost var before := q';
      indegrees', q' := ReleaseOne(g, u, j, indegrees', q', done);
      PrefixKept(q, before, q', g[u][j].0);
      j := j + 1;
    }
    ReleaseDone(g, done, u, indegrees', q');
  }

  /** When the queue runs dry, every vertex not emitted still has an edge into it from a vertex
      not emitted. */
  lemma KahnStuck(g: Graph, indegrees: map<int, int>, done: set<int>, res: seq<int>)
    requires Kahn(g, indegrees, [], done) && done == Elems(res)
    ensures Stuck(g, res)
  {
    forall v | v in g && v !in res
      ensures FedFromOutside(g, res, v)
    {
      InFromBounds(g, done, v);
      var u :| u in g && u !in done && EdgeCount(g, u, v) > 0;
    }
  }

  /** `topologicalSort(graph)`. `emitted` is the list built before the final size check; the
      result is that list when it holds every vertex and the empty list otherwise. The list
      is ordered (every edge goes from an earlier to a later vertex), holds each vertex at most
      once, and holds every vertex exactly when the graph has no cycle. */
  method TopologicalSort(g: Graph) returns (res: seq<int>, ghost emitted: seq<int>)
    requires WellFormed(g)
    ensures Distinct(emitted) && (forall i :: 0 <= i < |emitted| ==> emitted[i] in g)
    ensures Ordered(g, emitted) && Stuck(g, emitted)
    ensures res == if |emitted| == |g| then emitted else []
    ensures !HasCycle(g) <==> |emitted| == |g|
    ensures !HasCycle(g) ==> |res| == |g| && forall v :: v in g <==> v in res
    ensures HasCycle(g) ==> res == []
  {
    var indegrees := ComputeIndegrees(g, map[]);
    var q := Sources(indegrees);
    KahnStart(g, indegrees, q);
    res := [];
    ghost var done: set<int> := {};
    while |q| > 0
      invariant Kahn(g, indegrees, q, done)
      invariant done == Elems(res) && Distinct(res) && Ordered(g, res)
      decreases g.Keys - done
    {
      var vertex := q[0];
      EmitFront(g, indegrees, q, done, res);
      res := res + [vertex];
      indegrees, q := ReleaseTargets(g, vertex, indegrees, q[1..], done);
      done := done + {vertex};
    }
    KahnStuck(g, indegrees, done, res);
    emitted := res;
    KahnVerdict(g, emitted);
    if |res| != |g| {
      res := [];
    }
  }

  // ---------------------------------------------------------------------------------------
  // Dijkstra's algorithm

  /** Some edge `u -> v` weighs exactly the difference of their distances. */
  ghost predicate Tight(g: Graph, d: map<int, int>, u: int, v: int)
  {
    u in g && exists j :: 0 <= j < |g[u]| && g[u][j] == (v, Get(d, v) - Get(d, u))
  }

  /** `v`'s predecessor `u` was settled (entered the visited set) before `v`, and the edge
      from `u` accounts for `v`'s distance. */
  ghost predicate Settles(g: Graph, d: map<int, int>, rank: map<int, nat>, u: int, v: int)
  {
    u in rank && (v in rank ==> rank[u] < rank[v]) && Tight(g, d, u, v)
  }

  /** The state of the main loop of `dijkstrasAlgorithm`: `q` holds the vertices not yet popped
      and `visited` the others, each with the step at which it was popped; every distance is
      at most infinity and finite once visited; every predecessor is a visited vertex joined to
      its successor by a tight edge. */
  ghost predicate Settling(g: Graph, d: map<int, int>, p: map<int, Option<int>>, q: set<int>,
                           visited: set<int>, rank: map<int, nat>, step: nat)
  {
    && q !! visited && q + visited == g.Keys
    && d.Keys == g.Keys && p.Keys == g.Keys
    && (forall v :: v in g ==> d[v] <= Infinity)
    && rank.Keys == visited
    && (forall v :: v in visited ==> d[v] < Infinity && rank[v] < step)
    && (forall v :: v in g && p[v] != None ==> Settles(g, d, rank, p[v].value, v))
  }

  /** Relaxing an edge out of a visited vertex into an unvisited one keeps the loop state. */
  lemma RelaxStep(g: Graph, d: map<int, int>, p: map<int, Option<int>>, q: set<int>,
                  visited: set<int>, rank: map<int, nat>, step: nat, vertex: int, j: nat,
                  relaxed: bool, d': map<int, int>, p': map<int, Option<int>>)
    requires WellFormed(g) && Settling(g, d, p, q, visited, rank, step)
    requires vertex in visited && j < |g[vertex]| && g[vertex][j].0 !in visited
    requires relaxed <==> Get(d, vertex) + g[vertex][j].1 < Get(d, g[vertex][j].0)
    requires forall x :: Get(d', x) == if relaxed && x == g[vertex][j].0 then Get(d, vertex) + g[vertex][j].1 else Get(d, x)
    requires forall x :: Pred(p', x) == if relaxed && x == g[vertex][j].0 then Some(vertex) else Pred(p, x)
    requires d'.Keys == d.Keys + {vertex, g[vertex][j].0}
    requires p'.Keys == if relaxed then p.Keys + {g[vertex][j].0} else p.Keys
    ensures Settling(g, d', p', q, visited, rank, step)
  {
    var (t, w) := g[vertex][j];
    assert t in g;
    assert d'.Keys == g.Keys;
    forall v | v in g
      ensures d'[v] <= Infinity
    {
      assert Get(d', v) == d'[v] && Get(d, v) == d[v];
    }
    forall v | v in visited
      ensures d'[v] == d[v]
    {
      assert Get(d', v) == d'[v] && Get(d, v) == d[v];
    }
    forall v | v in g && p'[v] != None
      ensures Settles(g, d', rank, p'[v].value, v)
    {
      assert Pred(p', v) == p'[v];
      if relaxed && v == t {
        assert g[vertex][j] == (v, Get(d', v) - Get(d', vertex));
      } else {
        assert Pred(p, v) == p[v];
        var u := p[v].value;
        assert Settles(g, d, rank, u, v);
        var k :| 0 <= k < |g[u]| && g[u][k] == (v, Get(d, v) - Get(d, u));
        assert g[u][k] == (v, Get(d', v) - Get(d', u));
      }
    }
  }

  /** Popping the unvisited vertex `vertex`, of finite distance, keeps the loop state. */
  lemma Visit(g: Graph, d: map<int, int>, p: map<int, Option<int>>, q: set<int>,
              visited: set<int>, rank: map<int, nat>, step: nat, vertex: int)
    requires Settling(g, d, p, q, visited, rank, step) && vertex in q && d[vertex] < Infinity
    ensures Settling(g, d, p, q - {vertex}, visited + {vertex}, rank[vertex := step], step + 1)
  {
    var rank' := rank[vertex := step];
    forall v | v in g && p[v] != None
      ensures Settles(g, d, rank', p[v].value, v)
    {
      assert Settles(g, d, rank, p[v].value, v);
    }
  }

  /** The inner loop of `dijkstrasAlgorithm`: every edge out of the just-visited `vertex` into a
      vertex not yet visited is relaxed. Each vertex either keeps its distance and predecessor,
      or is unvisited and gets a smaller distance through `vertex`; visited distances are never
      touched. */
  method RelaxEdges(g: Graph, vertex: int, d: map<int, int>, p: map<int, Option<int>>,
                    visited: set<int>, ghost q: set<int>, ghost rank: map<int, nat>, ghost step: nat)
    returns (d': map<int, int>, p': map<int, Option<int>>)
    requires WellFormed(g) && vertex in visited && Settling(g, d, p, q, visited, rank, step)
    ensures Settling(g, d', p', q, visited, rank, step)
    ensures forall v :: v in g ==>
              || (d'[v] == d[v] && p'[v] == p[v])
              || (v !in visited && d'[v] < d[v] && p'[v] == Some(vertex))
    ensures forall k :: 0 <= k < |g[vertex]| && g[vertex][k].0 !in visited ==>
              d'[g[vertex][k].0] <= d'[vertex] + g[vertex][k].1
  {
    d', p' := d, p;
    var adj := g[vertex];
    var j := 0;
    while j < |adj|
      invariant j <= |adj| && Settling(g, d', p', q, visited, rank, step)
      invariant forall v :: v in g ==>
                  || (d'[v] == d[v] && p'[v] == p[v])
                  || (v !in visited && d'[v] < d[v] && p'[v] == Some(vertex))
      invariant forall k :: 0 <= k < j && adj[k].0 !in visited ==> d'[adj[k].0] <= d'[vertex] + adj[k].1
    {
      var (adjVertex, weight) := adj[j];
      if adjVertex in visited {
        j := j + 1;
        continue;
      }
      ghost var before, beforeP := d', p';
      var relaxed;
      relaxed, d', p' := Relax(vertex, adjVertex, weight, d', p');
      RelaxStep(g, before, beforeP, q, visited, rank, step, vertex, j, relaxed, d', p');
      forall v | v in g
        ensures || (d'[v] == d[v] && p'[v] == p[v])
                || (v !in visited && d'[v] < d[v] && p'[v] == Some(vertex))
      {
        assert Get(d', v) == d'[v] && Get(before, v) == before[v];
        assert Pred(p', v) == p'[v] && Pred(beforeP, v) == beforeP[v];
      }
      forall k | 0 <= k <= j && adj[k].0 !in visited
        ensures d'[adj[k].0] <= d'[vertex] + adj[k].1
      {
        assert Get(d', adj[k].0) == d'[adj[k].0] && Get(before, adj[k].0) == before[adj[k].0];
        assert Get(d', vertex) == d'[vertex] && Get(before, vertex) == before[vertex];
      }
      j := j + 1;
    }
  }

  /** A non-empty finite set of vertices with distances has one of least distance: the top of
      the priority queue. */
  lemma {:induction false} NearestExists(q: set<int>, d: map<int, int>)
    requires q != {} && q <= d.Keys
    ensures exists v :: v in q && forall x :: x in q ==> d[v] <= d[x]
    decreases q
  {
    Occupied(q);
    var y :| y in q;
    if q != {y} {
      NearestExists(q - {y}, d);
      var v :| v in q - {y} && forall x :: x in q - {y} ==> d[v] <= d[x];
      if d[y] < d[v] {
        assert forall x :: x in q ==> d[y] <= d[x];
      } else {
        assert forall x :: x in q ==> d[v] <= d[x];
      }
    }
  }

  /** Every distance of `d'` is at most its initial value in `d`, and a vertex has a
      predecessor exactly when its distance went down. */
  ghost predicate Lowered(g: Graph, d: map<int, int>, d': map<int, int>, p': map<int, Option<int>>)
  {
    && d.Keys == g.Keys && d'.Keys == g.Keys && p'.Keys == g.Keys
    && forall v :: v in g ==> d'[v] <= d[v] && (p'[v] == None <==> d'[v] == d[v])
  }

  /** Relaxing the edges out of one vertex keeps the distances lowered. */
  lemma LoweredStep(g: Graph, d: map<int, int>, d1: map<int, int>, p1: map<int, Option<int>>,
                    d2: map<int, int>, p2: map<int, Option<int>>, visited: set<int>, vertex: int)
    requires Lowered(g, d, d1, p1) && d2.Keys == g.Keys && p2.Keys == g.Keys
    requires forall v :: v in g ==>
               || (d2[v] == d1[v] && p2[v] == p1[v])
               || (v !in visited && d2[v] < d1[v] && p2[v] == Some(vertex))
    ensures Lowered(g, d, d2, p2)
  {
    forall v | v in g
      ensures d2[v] <= d[v] && (p2[v] == None <==> d2[v] == d[v])
    {
      assert d1[v] <= d[v] && (p1[v] == None <==> d1[v] == d[v]);
    }
  }

  /** Every edge out of a visited vertex `u`, into a vertex other than `u` that was not
      visited before `u`, has been relaxed: its target is no farther than `u` plus the
      weight. */
  ghost predicate Relaxed(g: Graph, d: map<int, int>, visited: set<int>, rank: map<int, nat>)
  {
    && WellFormed(g) && d.Keys == g.Keys && visited <= g.Keys && rank.Keys == visited
    && forall u, j :: (u in visited && 0 <= j < |g[u]| && g[u][j].0 != u
                         && (g[u][j].0 !in visited || rank[u] <= rank[g[u][j].0]))
                        ==> d[g[u][j].0] <= d[u] + g[u][j].1
  }

  /** The vertices were visited in order of distance: a visited vertex is no farther than any
      vertex still queued, nor than any vertex visited after it. */
  ghost predicate Monotone(d: map<int, int>, q: set<int>, visited: set<int>, rank: map<int, nat>)
  {
    && q + visited <= d.Keys && visited <= rank.Keys
    && (forall x, y :: x in visited && y in q ==> d[x] <= d[y])
    && (forall x, y :: x in visited && y in visited && rank[x] < rank[y] ==> d[x] <= d[y])
  }

  /** No edge is tense: every edge's target is at most its source's distance plus the
      weight. */
  ghost predicate Closed(g: Graph, d: map<int, int>)
  {
    && WellFormed(g) && d.Keys == g.Keys
    && forall u, j :: u in g && 0 <= j < |g[u]| ==> d[g[u][j].0] <= d[u] + g[u][j].1
  }

  /** With no negative weight, a tight edge leads to a vertex no nearer than its source. */
  lemma TightGrows(g: Graph, d: map<int, int>, u: int, v: int)
    requires NonNegative(g) && Tight(g, d, u, v)
    ensures Get(d, u) <= Get(d, v)
  {
    var j :| 0 <= j < |g[u]| && g[u][j] == (v, Get(d, v) - Get(d, u));
    assert g[u][j].1 >= 0;
  }

  /** Popping `vertex` and relaxing its edges into unvisited vertices keeps every edge out of
      a visited vertex relaxed: the earlier vertices' distances are untouched and their
      targets' distances only went down. */
  lemma RelaxedStep(g: Graph, d: map<int, int>, d': map<int, int>, visited: set<int>,
                    rank: map<int, nat>, step: nat, vertex: int)
    requires Relaxed(g, d, visited, rank) && vertex in g && vertex !in visited && d'.Keys == g.Keys
    requires forall v :: v in rank ==> rank[v] < step
    requires forall v :: v in g ==> d'[v] == d[v] || (v !in visited + {vertex} && d'[v] < d[v])
    requires forall k :: 0 <= k < |g[vertex]| && g[vertex][k].0 !in visited + {vertex} ==>
               d'[g[vertex][k].0] <= d'[vertex] + g[vertex][k].1
    ensures Relaxed(g, d', visited + {vertex}, rank[vertex := step])
  {
    var visited', rank' := visited + {vertex}, rank[vertex := step];
    assert forall x :: x in visited ==> rank'[x] == rank[x] && rank[x] < step && d'[x] == d[x];
    assert rank'[vertex] == step && d'[vertex] == d[vertex];
    forall u, j | u in visited' && 0 <= j < |g[u]| && g[u][j].0 != u
                  && (g[u][j].0 !in visited' || rank'[u] <= rank'[g[u][j].0])
      ensures d'[g[u][j].0] <= d'[u] + g[u][j].1
    {
      var t := g[u][j].0;
      assert t in g && d'[t] <= d[t];
      if u != vertex {
        assert d[t] <= d[u] + g[u][j].1;
      }
    }
  }

  /** With no negative weight, a distance lowered through `vertex` is no smaller than the
      distance of `vertex`. */
  lemma RelaxedNoNearer(g: Graph, d: map<int, int>, p: map<int, Option<int>>, d': map<int, int>,
                        p': map<int, Option<int>>, q: set<int>, visited: set<int>,
                        rank: map<int, nat>, step: nat, vertex: int)
    requires NonNegative(g) && Settling(g, d', p', q, visited, rank, step)
    requires d.Keys == g.Keys && p.Keys == g.Keys && vertex in g
    requires forall v :: v in g ==>
               || (d'[v] == d[v] && p'[v] == p[v])
               || (v !in visited && d'[v] < d[v] && p'[v] == Some(vertex))
    ensures forall v :: v in d' ==> d'[v] == d[v] || (v !in visited && d'[vertex] <= d'[v])
  {
    forall v | v in d'
      ensures d'[v] == d[v] || (v !in visited && d'[vertex] <= d'[v])
    {
      if d'[v] != d[v] {
        assert Settles(g, d', rank, vertex, v);
        TightGrows(g, d', vertex, v);
      }
    }
  }

  /** With no negative weight, popping a nearest queued vertex and relaxing its edges keeps
      the visiting order monotone: each relaxed distance is at least the popped one. */
  lemma MonotoneStep(d: map<int, int>, d': map<int, int>, q: set<int>, visited: set<int>,
                     rank: map<int, nat>, step: nat, vertex: int)
    requires Monotone(d, q, visited, rank) && d'.Keys == d.Keys && q !! visited
    requires vertex in q && forall x :: x in q ==> d[vertex] <= d[x]
    requires forall v :: v in rank ==> rank[v] < step
    requires forall v :: v in d ==> d'[v] == d[v] || (v !in visited + {vertex} && d'[vertex] <= d'[v])
    ensures Monotone(d', q - {vertex}, visited + {vertex}, rank[vertex := step])
  {
    var q', visited', rank' := q - {vertex}, visited + {vertex}, rank[vertex := step];
    assert forall x :: x in visited ==> rank'[x] == rank[x] && rank[x] < step && d'[x] == d[x];
    assert rank'[vertex] == step && d'[vertex] == d[vertex];
    forall x, y | x in visited' && y in q'
      ensures d'[x] <= d'[y]
    {
      assert x != vertex ==> d[x] <= d[vertex] && d[x] <= d[y];
    }
    forall x, y | x in visited' && y in visited' && rank'[x] < rank'[y]
      ensures d'[x] <= d'[y]
    {
      if y == vertex {
        assert d[x] <= d[vertex];
      }
    }
  }

  /** After the main loop, with no negative weight, no edge is tense: edges out of unvisited
      vertices start at infinity, edges into vertices visited earlier end no farther than
      their source, and the others were relaxed. */
  lemma ClosedAtEnd(g: Graph, d: map<int, int>, visited: set<int>, rank: map<int, nat>)
    requires NonNegative(g) && Relaxed(g, d, visited, rank) && Monotone(d, g.Keys - visited, visited, rank)
    requires forall v :: v in g ==> d[v] <= Infinity && (v !in visited ==> d[v] == Infinity)
    ensures Closed(g, d)
  {
    forall u, j | u in g && 0 <= j < |g[u]|
      ensures d[g[u][j].0] <= d[u] + g[u][j].1
    {
      var t := g[u][j].0;
      assert t in g && g[u][j].1 >= 0;
      if u in visited && t != u && t in visited && rank[t] < rank[u] {
        assert d[t] <= d[u];
      }
    }
  }

  /** The walk that starts at `u` and leaves each vertex by the out-edge whose index comes
      next in `choice`: its last vertex and its total weight, or `None` when an index names
      no edge. */
  ghost function Walk(g: Graph, u: int, choice: seq<nat>): Option<(int, int)>
    decreases |choice|
  {
    if choice == [] then Some((u, 0))
    else if u in g && choice[0] < |g[u]| then
      match Walk(g, g[u][choice[0]].0, choice[1..])
      case Some(end) => Some((end.0, g[u][choice[0]].1 + end.1))
      case None => None
    else None
  }

  /** Along a walk over a graph with no tense edge, the distance of the last vertex is at
      most the distance of the first plus the walk's weight; the walk ends at a vertex. */
  lemma {:induction false} WalkBound(g: Graph, d: map<int, int>, u: int, choice: seq<nat>)
    requires Closed(g, d) && u in g
    ensures Walk(g, u, choice).Some? ==>
              Walk(g, u, choice).value.0 in g
              && d[Walk(g, u, choice).value.0] <= d[u] + Walk(g, u, choice).value.1
    decreases |choice|
  {
    if choice != [] && choice[0] < |g[u]| {
      WalkBound(g, d, g[u][choice[0]].0, choice[1..]);
    }
  }

  /** A sequence of vertices joined by tight edges is a walk whose weight is the difference
      of the distances at its ends. */
  lemma {:induction false} TightWalk(g: Graph, d: map<int, int>, path: seq<int>)
    requires |path| > 0 && forall i :: 0 < i < |path| ==> Tight(g, d, path[i - 1], path[i])
    ensures exists c :: Walk(g, path[0], c) == Some((path[|path| - 1], Get(d, path[|path| - 1]) - Get(d, path[0])))
    decreases |path|
  {
    var last := path[|path| - 1];
    if |path| == 1 {
      assert Walk(g, path[0], []) == Some((last, Get(d, last) - Get(d, path[0])));
    } else {
      var rest := path[1..];
      forall i | 0 < i < |rest|
        ensures Tight(g, d, rest[i - 1], rest[i])
      {
        assert rest[i - 1] == path[i] && rest[i] == path[i + 1];
      }
      TightWalk(g, d, rest);
      var c :| Walk(g, rest[0], c) == Some((last, Get(d, last) - Get(d, rest[0])));
      assert Tight(g, d, path[0], path[1]);
      var j :| 0 <= j < |g[path[0]]| && g[path[0]][j] == (path[1], Get(d, path[1]) - Get(d, path[0]));
      assert ([j] + c)[0] == j && ([j] + c)[1..] == c;
      assert Walk(g, path[0], [j] + c) == Some((last, Get(d, last) - Get(d, path[0])));
    }
  }

  /** A tight path from a vertex at distance zero is a walk that weighs the distance of its
      last vertex. */
  lemma PathIsWalk(g: Graph, d: map<int, int>, path: seq<int>, source: int, dest: int)
    requires |path| > 0 && forall i :: 0 < i < |path| ==> Tight(g, d, path[i - 1], path[i])
    requires path[0] == source && path[|path| - 1] == dest && Get(d, source) == 0
    ensures exists c :: Walk(g, source, c) == Some((dest, Get(d, dest)))
  {
    TightWalk(g, d, path);
  }

  /** The state of the main loop of `dijkstrasAlgorithm` started from the distances `d0` that
      `initializeSingleSource` left: `Settling`, distances lowered from `d0`, the source at
      zero and visited first, the edges out of visited vertices relaxed, and with no negative
      weight the vertices visited in order of distance. */
  ghost predicate Dijkstra(g: Graph, d0: map<int, int>, source: int, d: map<int, int>,
                           p: map<int, Option<int>>, q: set<int>, visited: set<int>,
                           rank: map<int, nat>, step: nat)
  {
    && Settling(g, d, p, q, visited, rank, step)
    && Lowered(g, d0, d, p)
    && source in d && d[source] == 0 && (source in visited || (visited == {} && d == d0))
    && Relaxed(g, d, visited, rank)
    && (NonNegative(g) ==> Monotone(d, q, visited, rank))
  }

  /** One round of the main loop of `dijkstrasAlgorithm`: pop the nearest queued vertex, which
      is at a finite distance, visit it, and relax its edges into unvisited vertices. */
  method DijkstraRound(g: Graph, ghost d0: map<int, int>, ghost source: int, d: map<int, int>,
                       p: map<int, Option<int>>, q: set<int>, visited: set<int>,
                       ghost rank: map<int, nat>, ghost step: nat, vertex: int)
    returns (d': map<int, int>, p': map<int, Option<int>>, q': set<int>, visited': set<int>,
             ghost rank': map<int, nat>, ghost step': nat)
    requires WellFormed(g) && Dijkstra(g, d0, source, d, p, q, visited, rank, step)
    requires vertex in q && d[vertex] < Infinity && forall x :: x in q ==> d[vertex] <= d[x]
    requires forall v :: v in g && v != source ==> d0[v] == Infinity
    ensures Dijkstra(g, d0, source, d', p', q', visited', rank', step')
    ensures q' == q - {vertex} && visited' == visited + {vertex}
  {
    assert visited == {} ==> vertex == source;
    Visit(g, d, p, q, visited, rank, step, vertex);
    q' := q - {vertex};
    visited' := visited;
    if vertex !in visited' {
      visited' := visited' + {vertex};
    }
    rank', step' := rank[vertex := step], step + 1;
    d', p' := RelaxEdges(g, vertex, d, p, visited', q', rank', step');
    LoweredStep(g, d0, d, p, d', p', visited', vertex);
    RelaxedStep(g, d, d', visited, rank, step, vertex);
    if NonNegative(g) {
      RelaxedNoNearer(g, d, p, d', p', q', visited', rank', step', vertex);
      MonotoneStep(d, d', q, visited, rank, step, vertex);
    }
  }

  /** The main loop of `dijkstrasAlgorithm`, after `initializeSingleSource` gave the source
      distance zero and every other vertex infinity: the queue starts with every vertex; the
      vertex of least distance is popped and visited, and its edges into unvisited vertices
      are relaxed; the loop stops when that least distance is infinity. Afterwards the source
      is visited at distance zero, every unvisited vertex is at infinity and every visited one
      is finite; a distance only ever decreases, and it decreases exactly for the vertices that
      got a predecessor; each predecessor was visited earlier than its successor, through a
      tight edge; every edge out of a visited vertex into a vertex not visited before it is
      relaxed, and with no negative weight no edge at all is left tense. */
  method DijkstraLoop(g: Graph, d: map<int, int>, p: map<int, Option<int>>, ghost source: int)
    returns (d': map<int, int>, p': map<int, Option<int>>, visited: set<int>,
             ghost rank: map<int, nat>, ghost step: nat)
    requires WellFormed(g) && d.Keys == g.Keys && p.Keys == g.Keys && source in g
    requires forall v :: v in g ==> d[v] == (if v == source then 0 else Infinity) && p[v] == None
    ensures Settling(g, d', p', g.Keys - visited, visited, rank, step)
    ensures forall v :: v in g && v !in visited ==> d'[v] == Infinity
    ensures forall v :: v in g ==> d'[v] <= d[v] && (p'[v] == None <==> d'[v] == d[v])
    ensures source in visited && d'[source] == 0
    ensures Relaxed(g, d', visited, rank)
    ensures NonNegative(g) ==> Closed(g, d')
  {
    d', p' := d, p;
    var q := g.Keys;
    visited, rank, step := {}, map[], 0;
    while |q| > 0
      invariant Dijkstra(g, d, source, d', p', q, visited, rank, step)
      decreases q
    {
      NearestExists(q, d');
      var vertex :| vertex in q && forall x :: x in q ==> d'[vertex] <= d'[x];
      if d'[vertex] == Infinity {
        assert forall v :: v in g && v !in visited ==> v in q && d'[v] == Infinity;
        break;
      }
      d', p', q, visited, rank, step := DijkstraRound(g, d, source, d', p', q, visited, rank, step, vertex);
    }
    if NonNegative(g) {
      ClosedAtEnd(g, d', visited, rank);
    }
  }

  /** The end of `dijkstrasAlgorithm`: the destination, when it is the source or has a
      predecessor, preceded by the chain of predecessors walked back from it. The walk ends
      because every predecessor ranks below its successor. The path is empty exactly when the
      destination is not the source and has no predecessor; otherwise it ends at the
      destination, starts at a vertex without predecessor, and each vertex is the predecessor
      of the next. */
  method ReconstructPath(p: map<int, Option<int>>, source: int, dest: int, ghost rank: int -> nat)
    returns (res: seq<int>)
    requires forall v :: Pred(p, v) != None ==> rank(Pred(p, v).value) < rank(v)
    ensures res == [] <==> source != dest && Pred(p, dest) == None
    ensures res != [] ==> res[|res| - 1] == dest && Pred(p, res[0]) == None
    ensures res != [] && res[0] != dest ==> Pred(p, dest) != None
    ensures forall i :: 0 < i < |res| ==> Pred(p, res[i]) == Some(res[i - 1])
  {
    res := [];
    var curr := dest;
    if source == dest || Pred(p, curr) != None {
      res := [dest];
    }
    while Pred(p, curr) != None
      invariant res != [] ==> res[0] == curr && res[|res| - 1] == dest
      invariant res == [] ==> curr == dest && source != dest && Pred(p, dest) == None
      invariant res != [] ==> source == dest || Pred(p, dest) != None
      invariant res != [] && res[0] != dest ==> Pred(p, dest) != None
      invariant forall i :: 0 < i < |res| ==> Pred(p, res[i]) == Some(res[i - 1])
      decreases rank(curr)
    {
      var prev := Pred(p, curr).value;
      res := [prev] + res;
      curr := prev;
    }
  }

  /** The step at which `v` was visited, or `step` for a vertex never visited. */
  ghost function Order(rank: map<int, nat>, step: nat, v: int): nat
  {
    if v in rank then rank[v] else step
  }

  /** After the main loop every predecessor was visited before its successor, and a
      predecessor that has no predecessor of its own is the source: the only vertex whose
      initial distance is finite. */
  lemma Rooted(g: Graph, d0: map<int, int>, d: map<int, int>, p: map<int, Option<int>>,
               visited: set<int>, rank: map<int, nat>, step: nat, source: int)
    requires Settling(g, d, p, g.Keys - visited, visited, rank, step) && d0.Keys == g.Keys
    requires forall v :: v in g ==> d[v] <= d0[v] && (p[v] == None <==> d[v] == d0[v])
    requires forall v :: v in g && v != source ==> d0[v] == Infinity
    ensures forall v :: Pred(p, v) != None ==> Order(rank, step, Pred(p, v).value) < Order(rank, step, v)
    ensures forall v :: v in g && p[v] != None && Pred(p, p[v].value) == None ==> p[v].value == source
  {
    forall v | Pred(p, v) != None
      ensures Order(rank, step, Pred(p, v).value) < Order(rank, step, v)
    {
      assert v in g && p[v] != None;
      assert Settles(g, d, rank, p[v].value, v);
    }
    forall v | v in g && p[v] != None && Pred(p, p[v].value) == None
      ensures p[v].value == source
    {
      var u := p[v].value;
      assert Settles(g, d, rank, u, v);
      assert u in g && p[u] == None && d[u] < Infinity;
    }
  }

  /** `dijkstrasAlgorithm(graph, initial_node, destination_node)`. `initializeSingleSource`
      throws `std::out_of_range` when the source is not a vertex. Otherwise `dist` is the final
      distance map, with the source at zero, and the result is a walk of the graph from the
      source to the destination: it is empty exactly when the destination is not the source
      and its distance stayed infinite; each step follows an edge that weighs the difference
      of the distances, so the walk weighs the destination's distance. With no negative
      weight no walk from the source to the destination weighs less, so the result is a
      shortest path, and a destination reachable at a weight below infinity gets a non-empty
      result. */
  method DijkstrasAlgorithm(g: Graph, source: int, dest: int)
    returns (r: Result<seq<int>>, ghost dist: map<int, int>)
    requires WellFormed(g)
    ensures r.Failure? <==> source !in g
    ensures r.Failure? ==> r.error == OutOfRange
    ensures r.Success? ==> dist.Keys == g.Keys && dist[source] == 0
    ensures r.Success? ==> (r.value == [] <==> source != dest && (dest !in g || dist[dest] == Infinity))
    ensures r.Success? && r.value != [] ==> r.value[0] == source && r.value[|r.value| - 1] == dest
    ensures r.Success? ==> forall i :: 0 < i < |r.value| ==> Tight(g, dist, r.value[i - 1], r.value[i])
    ensures r.Success? && r.value != [] ==> exists c :: Walk(g, source, c) == Some((dest, Get(dist, dest)))
    ensures r.Success? && NonNegative(g) ==>
              forall c :: Walk(g, source, c).Some? && Walk(g, source, c).value.0 == dest ==>
                Get(dist, dest) <= Walk(g, source, c).value.1
                && (Walk(g, source, c).value.1 < Infinity ==> r.value != [])
  {
    var noDistances: map<int, int>, noPredecessors: map<int, Option<int>> := map[], map[];
    var init := InitializeSingleSource(g, source, noDistances, noPredecessors);
    if init.error != None {
      return Failure(OutOfRange), init.d;
    }
    assert init.d.Keys == g.Keys && init.p.Keys == g.Keys by {
      forall v
        ensures (v in init.d <==> v in g) && (v in init.p <==> v in g)
      {
        assert v !in noDistances && v !in noPredecessors;
      }
    }
    var d, p, visited, rank, step := DijkstraLoop(g, init.d, init.p, source);
    dist := d;
    ghost var order := (v: int) => Order(rank, step, v);
    Rooted(g, init.d, d, p, visited, rank, step, source);
    var path := ReconstructPath(p, source, dest, order);
    if |path| > 1 {
      assert Pred(p, path[1]) == Some(path[0]) && path[1] in g;
    }
    forall i | 0 < i < |path|
      ensures Tight(g, d, path[i - 1], path[i])
    {
      var v := path[i];
      assert Pred(p, v) == Some(path[i - 1]) && v in p;
    }
    if path != [] {
      PathIsWalk(g, d, path, source, dest);
    }
    assert path == [] <==> source != dest && (dest !in g || d[dest] == Infinity);
    if NonNegative(g) {
      forall c | Walk(g, source, c).Some? && Walk(g, source, c).value.0 == dest
        ensures Get(d, dest) <= Walk(g, source, c).value.1
        ensures Walk(g, source, c).value.1 < Infinity ==> path != []
      {
        WalkBound(g, d, source, c);
      }
    }
    return Success(path), dist;
  }
}

/** Walks, cycles and vertex orders of a graph: what a topological ordering is and why Kahn's
    algorithm emits every vertex exactly when the graph has no cycle. */
module GraphCycles {
  import opened SetSums
  import opened Graphs

  /** No vertex occurs twice. */
  ghost predicate Distinct(s: seq<int>)
  {
    forall i, j :: 0 <= i < j < |s| ==> s[i] != s[j]
  }

  /** The vertices occurring in `s`. */
  ghost function Elems(s: seq<int>): (r: set<int>)
    ensures forall v :: v in r <==> v in s
  {
    set v | v in s
  }

  /** A sequence without repetitions has as many distinct elements as positions. */
  lemma {:induction false} DistinctCard(s: seq<int>)
    requires Distinct(s)
    ensures |Elems(s)| == |s|
  {
    if s != [] {
      var tail := s[1..];
      assert Distinct(tail) by {
        forall i, j | 0 <= i < j < |tail|
          ensures tail[i] != tail[j]
        {
          assert s[i + 1] != s[j + 1];
        }
      }
      DistinctCard(tail);
      assert Elems(s) == Elems(tail) + {s[0]};
      assert s[0] !in tail by {
        forall j | 0 <= j < |tail|
          ensures tail[j] != s[0]
        {
          assert s[0] != s[j + 1];
        }
      }
    }
  }

  /** Every edge into an element of `e` starts at an element placed earlier. */
  ghost predicate Ordered(g: Graph, e: seq<int>)
  {
    forall i :: 0 <= i < |e| ==> forall u :: EdgeCount(g, u, e[i]) > 0 ==> u in e[..i]
  }

  /** Some vertex left out of `e` has an edge into `v`. */
  ghost predicate FedFromOutside(g: Graph, e: seq<int>, v: int)
  {
    exists u :: u in g && u !in e && EdgeCount(g, u, v) > 0
  }

  /** Taking the front off a sequence without repetitions leaves exactly the other elements. */
  lemma PopFront(q: seq<int>)
    requires Distinct(q) && q != []
    ensures Distinct(q[1..])
    ensures forall v :: v in q[1..] <==> v in q && v != q[0]
  {
    forall v | v in q && v != q[0]
      ensures v in q[1..]
    {
      var k :| 0 <= k < |q| && q[k] == v;
      assert q[1..][k - 1] == v;
    }
  }

  /** Appending a new element keeps a sequence without repetitions. */
  lemma AppendDistinct(s: seq<int>, v: int)
    requires Distinct(s) && v !in s
    ensures Distinct(s + [v]) && Elems(s + [v]) == Elems(s) + {v}
  {
  }

  /** Appending a vertex all of whose sources are already placed keeps the order. */
  lemma AppendOrdered(g: Graph, e: seq<int>, v: int)
    requires Ordered(g, e)
    requires forall u :: EdgeCount(g, u, v) > 0 ==> u in e
    ensures Ordered(g, e + [v])
  {
    var e' := e + [v];
    assert e'[..|e|] == e;
    forall i | 0 <= i < |e'|
      ensures forall u :: EdgeCount(g, u, e'[i]) > 0 ==> u in e'[..i]
    {
      if i < |e| {
        assert e'[..i] == e[..i];
      }
    }
  }

  /** Every vertex left out of `e` has an edge into it from another vertex left out. */
  ghost predicate Stuck(g: Graph, e: seq<int>)
  {
    forall v {:trigger FedFromOutside(g, e, v)} :: v in g && v !in e ==> FedFromOutside(g, e, v)
  }

  /** Consecutive vertices of `c` are joined by an edge. */
  ghost predicate IsWalk(g: Graph, c: seq<int>)
  {
    forall k :: 0 <= k < |c| - 1 ==> EdgeCount(g, c[k], c[k + 1]) > 0
  }

  /** Some walk of at least one edge returns to where it started. */
  ghost predicate HasCycle(g: Graph)
  {
    exists c :: |c| >= 2 && IsWalk(g, c) && c[0] == c[|c| - 1]
  }

  /** The position of `v` in `e`. */
  ghost function IndexOf(e: seq<int>, v: int): (r: nat)
    requires v in e
    ensures r < |e| && e[r] == v
  {
    if e[0] == v then 0 else 1 + IndexOf(e[1..], v)
  }

  /** In an ordered sequence without repetitions, every edge into a placed vertex starts at a
      vertex placed before it. */
  lemma EdgeForward(g: Graph, e: seq<int>, u: int, v: int)
    requires Ordered(g, e) && Distinct(e) && v in e && EdgeCount(g, u, v) > 0
    ensures u in e && IndexOf(e, u) < IndexOf(e, v)
  {
    var i := IndexOf(e, v);
    assert u in e[..i];
    var k :| 0 <= k < i && e[k] == u;
  }

  /** Along a walk through placed vertices, positions in an ordered sequence increase. */
  lemma {:induction false} PositionsIncrease(g: Graph, e: seq<int>, c: seq<int>, k: nat)
    requires Ordered(g, e) && Distinct(e) && IsWalk(g, c)
    requires 0 < k < |c| && forall i :: 0 <= i < |c| ==> c[i] in e
    ensures IndexOf(e, c[0]) < IndexOf(e, c[k])
    decreases k
  {
    EdgeForward(g, e, c[k - 1], c[k]);
    if k > 1 {
      PositionsIncrease(g, e, c, k - 1);
    }
  }

  /** A graph whose every vertex is placed in an ordered sequence without repetitions has no
      cycle. */
  lemma NoCycleWhenOrdered(g: Graph, e: seq<int>)
    requires Ordered(g, e) && Distinct(e) && forall v :: v in g ==> v in e
    ensures !HasCycle(g)
  {
    if HasCycle(g) {
      var c :| |c| >= 2 && IsWalk(g, c) && c[0] == c[|c| - 1];
      forall i | 0 <= i < |c|
        ensures c[i] in e
      {
        var k := if i < |c| - 1 then i else 0;
        EdgeCountPositive(g, c[k], c[k + 1]);
      }
      PositionsIncrease(g, e, c, |c| - 1);
    }
  }

  /** Walking back from a vertex left out, through the vertices left out, for `n` steps. */
  lemma {:induction false} BackWalk(g: Graph, e: seq<int>, v: int, n: nat) returns (c: seq<int>)
    requires Stuck(g, e) && v in g && v !in e
    ensures |c| == n + 1 && IsWalk(g, c) && c[n] == v
    ensures forall k :: 0 <= k < |c| ==> c[k] in g && c[k] !in e
    decreases n
  {
    if n == 0 {
      c := [v];
    } else {
      var rest := BackWalk(g, e, v, n - 1);
      assert FedFromOutside(g, e, rest[0]);
      var u :| u in g && u !in e && EdgeCount(g, u, rest[0]) > 0;
      c := [u] + rest;
      assert forall k :: 0 < k < |c| ==> c[k] == rest[k - 1];
    }
  }

  /** More positions than elements means a repetition. */
  lemma Pigeonhole(c: seq<int>, s: set<int>)
    requires |c| > |s| && forall k :: 0 <= k < |c| ==> c[k] in s
    ensures exists i, j :: 0 <= i < j < |c| && c[i] == c[j]
  {
    if Distinct(c) {
      DistinctCard(c);
      SubsetCard(Elems(c), s);
    }
  }

  /** When some vertex is left out and every vertex left out has an edge into it from another
      left out, walking back through them must repeat a vertex: the graph has a cycle. */
  lemma CycleWhenStuck(g: Graph, e: seq<int>, v: int)
    requires Stuck(g, e) && v in g && v !in e
    ensures HasCycle(g)
  {
    var left := g.Keys - Elems(e);
    var c := BackWalk(g, e, v, |left|);
    Pigeonhole(c, left);
    var i, j :| 0 <= i < j < |c| && c[i] == c[j];
    var cycle := c[i..j + 1];
    assert IsWalk(g, cycle) by {
      forall k | 0 <= k < |cycle| - 1
        ensures EdgeCount(g, cycle[k], cycle[k + 1]) > 0
      {
        assert cycle[k] == c[i + k] && cycle[k + 1] == c[i + k + 1];
      }
    }
    assert |cycle| >= 2 && cycle[0] == cycle[|cycle| - 1];
  }

  /** What Kahn's algorithm leaves behind decides acyclicity: an ordered sequence of distinct
      vertices from which every vertex left out is reachable by an edge from another left out
      holds every vertex exactly when the graph has no cycle. */
  lemma KahnVerdict(g: Graph, e: seq<int>)
    requires Distinct(e) && (forall i :: 0 <= i < |e| ==> e[i] in g)
    requires Ordered(g, e) && Stuck(g, e)
    ensures |e| <= |g|
    ensures |e| == |g| <==> !HasCycle(g)
    ensures |e| == |g| ==> forall v :: v in g <==> v in e
  {
    DistinctCard(e);
    SubsetCard(Elems(e), g.Keys);
    if |e| == |g| {
      assert Elems(e) == g.Keys;
      NoCycleWhenOrdered(g, e);
    } else {
      Occupied(g.Keys - Elems(e));
      var v :| v in g.Keys - Elems(e);
      CycleWhenStuck(g, e, v);
    }
  }
}

/**
 Unweighted single-source shortest path lengths (networkx's
 `single_source_shortest_path_length`), computed by level-synchronous breadth-first
 search: the nodes at hop count `level + 1` are the undiscovered successors of the
 nodes at hop count `level`.

 The search answers a dictionary from every reachable node to its hop count.  Its
 insertion order (the discovery order) is not modelled: callers only ever consume the
 multiset of its values.
 */
module Bfs {
  import opened Graphs
  import opened Results

  datatype SearchError = NodeNotFound(node: Address)

  /**
   The local characterisation of a breadth-first distance map from `s`: the source is
   at 0, no edge out of a reached node leads further than one hop beyond it, and every
   other reached node has a predecessor exactly one hop nearer.
   */
  ghost predicate IsDistanceMap(g: Graph, s: Address, d: map<Address, nat>)
  {
    && s in d && d[s] == 0
    && d.Keys <= g.Keys
    && (forall u, v :: u in d && u in g && v in g[u] ==> v in d && d[v] <= d[u] + 1)
    && (forall v {:trigger HasPredecessor(g, d, v)} :: v in d && v != s ==> HasPredecessor(g, d, v))
  }

  /** Some node of `d` has an edge to `v` and is exactly one hop nearer than `v`. */
  ghost predicate HasPredecessor(g: Graph, d: map<Address, nat>, v: Address)
    requires v in d
  {
    exists u :: u in d && u in g && v in g[u] && d[u] + 1 == d[v]
  }

  /** Every walk from `s` ends at a node of `d`, no nearer than `d` says. */
  lemma {:induction false} DistanceMapIsLowerBound(g: Graph, s: Address, d: map<Address, nat>, v: Address, k: nat)
    requires IsDistanceMap(g, s, d)
    requires HasWalk(g, s, v, k)
    ensures v in d && d[v] <= k
    decreases k
  {
    var p :| IsWalk(g, p) && |p| == k + 1 && p[0] == s && p[k] == v;
    if k > 0 {
      var q := p[..k];
      assert IsWalk(g, q);
      assert HasWalk(g, s, p[k - 1], k - 1);
      DistanceMapIsLowerBound(g, s, d, p[k - 1], k - 1);
      assert p[k - 1] in g && v in g[p[k - 1]];
    }
  }

  /** Every node of `d` is reached by a walk of exactly `d[v]` edges. */
  lemma {:induction false} DistanceMapIsAttained(g: Graph, s: Address, d: map<Address, nat>, v: Address)
    requires IsDistanceMap(g, s, d)
    requires v in d
    ensures HasWalk(g, s, v, d[v])
    decreases d[v]
  {
    if v == s {
      assert IsWalk(g, [s]);
    } else {
      assert HasPredecessor(g, d, v);
      var u :| u in d && u in g && v in g[u] && d[u] + 1 == d[v];
      DistanceMapIsAttained(g, s, d, u);
      var p :| IsWalk(g, p) && |p| == d[u] + 1 && p[0] == s && p[d[u]] == u;
      var q := p + [v];
      forall i | 0 <= i < |q| - 1
        ensures q[i] in g && q[i + 1] in g[q[i]]
      {
        if i < |p| - 1 {
          assert q[i] == p[i] && q[i + 1] == p[i + 1];
        } else {
          assert q[i] == u && q[i + 1] == v;
        }
      }
      assert IsWalk(g, q) && |q| == d[v] + 1 && q[0] == s && q[d[v]] == v;
    }
  }

  /**
   A map satisfying the local breadth-first conditions is exactly the shortest-path
   length map: its keys are the nodes reachable from `s` and its values are their
   shortest hop counts.
   */
  lemma DistanceMapIsShortestMap(g: Graph, s: Address, d: map<Address, nat>)
    requires IsDistanceMap(g, s, d)
    ensures d == ShortestMap(g, s)
    ensures forall v :: v in d ==> IsShortest(g, s, v, d[v])
  {
    forall v | v in d
      ensures IsShortest(g, s, v, d[v]) && v in ReachableSet(g, s)
    {
      DistanceMapIsAttained(g, s, d, v);
      forall k: nat | k < d[v]
        ensures !HasWalk(g, s, v, k)
      {
        if HasWalk(g, s, v, k) {
          DistanceMapIsLowerBound(g, s, d, v, k);
        }
      }
    }
    forall v | v in ReachableSet(g, s)
      ensures v in d && d[v] == Distance(g, s, v)
    {
      var k: nat :| HasWalk(g, s, v, k);
      DistanceMapIsLowerBound(g, s, d, v, k);
      ShortestUnique(g, s, v, d[v], Distance(g, s, v));
    }
  }

  /** Only the source is at distance 0 in a shortest-path length map. */
  lemma OnlySourceAtZero(g: Graph, s: Address, v: Address)
    requires v in ShortestMap(g, s)
    ensures ShortestMap(g, s)[v] == 0 <==> v == s
  {
    var d := ShortestMap(g, s);
    assert IsShortest(g, s, v, d[v]);
    if d[v] == 0 {
      var p :| IsWalk(g, p) && |p| == 1 && p[0] == s && p[0] == v;
    }
    if v == s {
      assert IsWalk(g, [s]);
      assert HasWalk(g, s, s, 0);
    }
  }

  /** The state of the search after every node within `level` hops has been discovered. */
  ghost predicate LevelsDone(g: Graph, source: Address, dist: map<Address, nat>, frontier: set<Address>, level: nat)
  {
    && source in dist && dist[source] == 0
    && dist.Keys <= g.Keys
    && (forall v :: v in dist ==> dist[v] <= level)
    && (forall v :: v in frontier <==> v in dist && dist[v] == level)
    && (forall u, v :: u in dist && dist[u] < level && u in g && v in g[u] ==> v in dist && dist[v] <= dist[u] + 1)
    && (forall v {:trigger HasPredecessor(g, dist, v)} :: v in dist && v != source ==> HasPredecessor(g, dist, v))
  }

  /** The undiscovered successors of the frontier. */
  function NextLevel(g: Graph, dist: map<Address, nat>, frontier: set<Address>): (next: set<Address>)
    requires frontier <= g.Keys
    ensures next <= g.Keys - dist.Keys
    ensures forall v :: v in next <==> v !in dist && exists u :: u in frontier && v in g[u]
  {
    set u, v | u in frontier && v in g[u] && v !in dist :: v
  }

  /** `dist` extended with the next level at hop count `level + 1`. */
  function Expand(g: Graph, dist: map<Address, nat>, frontier: set<Address>, level: nat): (dist': map<Address, nat>)
    requires frontier <= g.Keys
    ensures dist'.Keys == dist.Keys + NextLevel(g, dist, frontier)
    ensures forall v :: v in dist ==> dist'[v] == dist[v]
    ensures forall v :: v in dist' && v !in dist ==> dist'[v] == level + 1
  {
    dist + map v | v in NextLevel(g, dist, frontier) :: level + 1
  }

  /** After expansion, every edge out of a node within `level` hops stays within one more hop. */
  lemma ExpandKeepsClosure(g: Graph, source: Address, dist: map<Address, nat>, frontier: set<Address>, level: nat)
    requires LevelsDone(g, source, dist, frontier, level)
    ensures frontier <= g.Keys
    ensures var dist' := Expand(g, dist, frontier, level);
      forall u, v :: u in dist' && dist'[u] < level + 1 && u in g && v in g[u] ==> v in dist' && dist'[v] <= dist'[u] + 1
  {
    var dist' := Expand(g, dist, frontier, level);
    forall u, v | u in dist' && dist'[u] < level + 1 && u in g && v in g[u]
      ensures v in dist' && dist'[v] <= dist'[u] + 1
    {
      assert u in dist;
      if dist[u] == level && v !in dist {
        assert u in frontier;
        assert v in NextLevel(g, dist, frontier);
      }
    }
  }

  /** After expansion, every node but the source still has a predecessor one hop nearer. */
  lemma ExpandKeepsPredecessors(g: Graph, source: Address, dist: map<Address, nat>, frontier: set<Address>, level: nat)
    requires LevelsDone(g, source, dist, frontier, level)
    ensures frontier <= g.Keys
    ensures var dist' := Expand(g, dist, frontier, level);
      forall v {:trigger HasPredecessor(g, dist', v)} :: v in dist' && v != source ==> HasPredecessor(g, dist', v)
  {
    var dist' := Expand(g, dist, frontier, level);
    forall v | v in dist' && v != source
      ensures HasPredecessor(g, dist', v)
    {
      if v !in dist {
        assert v in NextLevel(g, dist, frontier);
        var u :| u in frontier && v in g[u];
        assert u in dist' && dist'[u] + 1 == dist'[v];
      } else {
        assert HasPredecessor(g, dist, v);
        var u :| u in dist && u in g && v in g[u] && dist[u] + 1 == dist[v];
        assert u in dist' && dist'[u] + 1 == dist'[v];
      }
    }
  }

  /** Adding the next level at hop count `level + 1` completes one more level. */
  lemma ExpandLevel(g: Graph, source: Address, dist: map<Address, nat>, frontier: set<Address>, level: nat)
    requires LevelsDone(g, source, dist, frontier, level)
    ensures frontier <= g.Keys
    ensures LevelsDone(g, source, Expand(g, dist, frontier, level), NextLevel(g, dist, frontier), level + 1)
  {
    var dist', next := Expand(g, dist, frontier, level), NextLevel(g, dist, frontier);
    ExpandKeepsClosure(g, source, dist, frontier, level);
    ExpandKeepsPredecessors(g, source, dist, frontier, level);
    ExpandKeepsLevels(g, source, dist, frontier, level);
    assert LevelsDone(g, source, dist', next, level + 1);
  }

  /** After expansion, the new frontier is exactly the nodes at hop count `level + 1`, the deepest ones. */
  lemma ExpandKeepsLevels(g: Graph, source: Address, dist: map<Address, nat>, frontier: set<Address>, level: nat)
    requires LevelsDone(g, source, dist, frontier, level)
    ensures frontier <= g.Keys
    ensures var dist', next := Expand(g, dist, frontier, level), NextLevel(g, dist, frontier);
      && source in dist' && dist'[source] == 0
      && dist'.Keys <= g.Keys
      && (forall v :: v in dist' ==> dist'[v] <= level + 1)
      && (forall v :: v in next <==> v in dist' && dist'[v] == level + 1)
  {
  }

  /** With no node at the current level, every discovered node has been expanded. */
  lemma LevelsFinished(g: Graph, source: Address, dist: map<Address, nat>, level: nat)
    requires LevelsDone(g, source, dist, {}, level)
    ensures IsDistanceMap(g, source, dist)
  {
    forall u, v | u in dist && u in g && v in g[u]
      ensures v in dist && dist[v] <= dist[u] + 1
    {
      assert u !in {};
      assert dist[u] < level;
    }
  }

  /**
   Breadth-first search from `source`, one level at a time.  Fails with `NodeNotFound`
   when the source is not a node of the graph; otherwise answers the hop count of every
   node reachable from it.
   */
  method SingleSourceShortestPathLength(g: Graph, source: Address) returns (r: Result<map<Address, nat>, SearchError>)
    ensures source !in g ==> r == Err(NodeNotFound(source))
    ensures source in g ==> r.Ok? && IsDistanceMap(g, source, r.value)
    ensures source in g ==> r.Ok? && r.value == ShortestMap(g, source)
  {
    if source !in g {
      return Err(NodeNotFound(source));
    }
    var dist: map<Address, nat> := map[source := 0];
    var frontier := {source};
    var level: nat := 0;
    while frontier != {}
      invariant LevelsDone(g, source, dist, frontier, level)
      decreases g.Keys - dist.Keys, frontier
    {
      ExpandLevel(g, source, dist, frontier, level);
      dist, frontier := Expand(g, dist, frontier, level), NextLevel(g, dist, frontier);
      level := level + 1;
    }
    LevelsFinished(g, source, dist, level);
    DistanceMapIsShortestMap(g, source, dist);
    r := Ok(dist);
  }
}

/**
 Directed transfer graphs and the path vocabulary used to specify hop distances.

 A graph maps every node (an address) to the set of its direct successors.  As in a
 networkx `DiGraph`, every endpoint of an edge is itself a node of the graph; the
 subset type `Graph` carries that invariant.
 */
module Graphs {

  type Address = string

  type Graph = g: map<Address, set<Address>> | forall u :: u in g ==> g[u] <= g.Keys
    witness map[]

  /** `p` is a directed walk in `g`: a non-empty node sequence whose consecutive nodes are edges. */
  ghost predicate IsWalk(g: Graph, p: seq<Address>)
  {
    && |p| >= 1
    && p[0] in g
    && forall i :: 0 <= i < |p| - 1 ==> p[i] in g && p[i + 1] in g[p[i]]
  }

  /** There is a walk with exactly `k` edges from `s` to `v`. */
  ghost predicate HasWalk(g: Graph, s: Address, v: Address, k: nat)
  {
    exists p :: IsWalk(g, p) && |p| == k + 1 && p[0] == s && p[k] == v
  }

  /** `v` can be reached from `s` by following edges forwards (zero edges included). */
  ghost predicate Reachable(g: Graph, s: Address, v: Address)
  {
    exists k: nat :: HasWalk(g, s, v, k)
  }

  /** `d` is the number of edges on a shortest directed path from `s` to `v`. */
  ghost predicate IsShortest(g: Graph, s: Address, v: Address, d: nat)
  {
    HasWalk(g, s, v, d) && forall k: nat :: k < d ==> !HasWalk(g, s, v, k)
  }

  /** Every node reachable from `s` (empty when `s` is not a node). */
  ghost function ReachableSet(g: Graph, s: Address): set<Address>
  {
    set v | v in g.Keys && Reachable(g, s, v)
  }

  /** The end of a walk is a node of the graph. */
  lemma WalkEndIsNode(g: Graph, s: Address, v: Address, k: nat)
    requires HasWalk(g, s, v, k)
    ensures s in g && v in g
  {
    var p :| IsWalk(g, p) && |p| == k + 1 && p[0] == s && p[k] == v;
    if k > 0 {
      assert p[k - 1] in g && p[k] in g[p[k - 1]];
    }
  }

  /** Both ends of a reachability fact are nodes of the graph. */
  lemma ReachableEndsAreNodes(g: Graph, s: Address, v: Address)
    requires Reachable(g, s, v)
    ensures s in g && v in g
  {
    var k: nat :| HasWalk(g, s, v, k);
    WalkEndIsNode(g, s, v, k);
  }

  /** An address that is not a node reaches nothing, not even itself. */
  lemma OnlyNodesReach(g: Graph, s: Address)
    ensures ReachableSet(g, s) != {} ==> s in g
  {
    if ReachableSet(g, s) != {} {
      var v :| v in ReachableSet(g, s);
      ReachableEndsAreNodes(g, s, v);
    }
  }

  /** Among the walk lengths from `s` to `v` that are at most `k`, one is the least. */
  lemma {:induction false} ShortestExists(g: Graph, s: Address, v: Address, k: nat)
    requires HasWalk(g, s, v, k)
    ensures exists d: nat :: d <= k && IsShortest(g, s, v, d)
    decreases k
  {
    if forall j: nat :: j < k ==> !HasWalk(g, s, v, j) {
      assert IsShortest(g, s, v, k);
    } else {
      var j: nat :| j < k && HasWalk(g, s, v, j);
      ShortestExists(g, s, v, j);
    }
  }

  /** The shortest distance is unique. */
  lemma ShortestUnique(g: Graph, s: Address, v: Address, d1: nat, d2: nat)
    requires IsShortest(g, s, v, d1) && IsShortest(g, s, v, d2)
    ensures d1 == d2
  {
  }

  /** The hop distance from `s` to a reachable `v`. */
  ghost function Distance(g: Graph, s: Address, v: Address): (d: nat)
    requires Reachable(g, s, v)
    ensures IsShortest(g, s, v, d)
  {
    var k: nat :| HasWalk(g, s, v, k);
    ShortestExists(g, s, v, k);
    var d: nat :| IsShortest(g, s, v, d);
    d
  }

  /** The reference answer of a single-source shortest-path-length search from `s`. */
  ghost function ShortestMap(g: Graph, s: Address): map<Address, nat>
  {
    map v | v in ReachableSet(g, s) :: Distance(g, s, v)
  }
}

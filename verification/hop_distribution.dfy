/**
 The hop distribution between claim receivers (sources) and exchange addresses
 (targets) of one transfer graph.

 For every source that is a node of the graph, a breadth-first search yields the hop
 count of every node it reaches; the hop count of every reached target (not only the
 nearest one) is emitted, and the per-source lists are concatenated.  The order of the
 result depends on Python set and dictionary iteration order, so it is specified as a
 multiset: `DistributionBag` is the reference answer.
 */
module HopDistribution {
  import opened Graphs
  import opened Results
  import opened Bags
  import opened Bfs

  /** The addresses of `addresses` that are nodes of `g`. */
  ghost function NodesAmong(g: Graph, addresses: seq<Address>): set<Address>
  {
    set a | a in addresses && a in g
  }

  /** The hop count of `v` when `v` is a reached target, as a one-element multiset. */
  ghost function TargetHop(d: map<Address, nat>, targets: set<Address>): Address -> multiset<nat>
  {
    v => if v in d && v in targets then multiset{d[v]} else multiset{}
  }

  /** The hop counts of every target reachable from `source`, one per target. */
  ghost function SourceHops(g: Graph, source: Address, targets: set<Address>): multiset<nat>
  {
    SumOver(TargetHop(ShortestMap(g, source), targets), ShortestMap(g, source).Keys)
  }

  ghost function SourceHopsOf(g: Graph, targets: set<Address>): Address -> multiset<nat>
  {
    s => SourceHops(g, s, targets)
  }

  /** The reference hop distribution: the per-source hop counts summed over all sources. */
  ghost function DistributionBag(g: Graph, targets: set<Address>, sources: set<Address>): multiset<nat>
  {
    SumOver(SourceHopsOf(g, targets), sources)
  }

  /** The number of targets reachable from `source`. */
  ghost function ReachedTargets(g: Graph, targets: set<Address>): Address -> nat
  {
    s => |ReachableSet(g, s) * targets|
  }

  /**
   Keeps the addresses that are nodes of the graph, dropping the others silently and
   collapsing duplicates.
   */
  method ValidateAddresses(g: Graph, addresses: seq<Address>) returns (valid: set<Address>)
    ensures forall a :: a in valid <==> a in addresses && a in g
    ensures |valid| <= |addresses|
  {
    valid := {};
    var i := 0;
    while i < |addresses|
      invariant 0 <= i <= |addresses|
      invariant forall a :: a in valid <==> a in addresses[..i] && a in g
      invariant |valid| <= i
    {
      if addresses[i] in g {
        valid := valid + {addresses[i]};
      }
      assert addresses[..i + 1] == addresses[..i] + [addresses[i]];
      i := i + 1;
    }
    assert addresses[..i] == addresses;
  }

  /**
   The hop counts of the targets in a search result, one per reached target, visiting
   the result's entries in an unspecified order.
   */
  method HopsToTargets(paths: map<Address, nat>, targetSet: set<Address>) returns (hops: seq<nat>)
    ensures multiset(hops) == SumOver(TargetHop(paths, targetSet), paths.Keys)
  {
    hops := [];
    var remaining := paths.Keys;
    ghost var f := TargetHop(paths, targetSet);
    ghost var visited: seq<Address> := [];
    while remaining != {}
      invariant remaining <= paths.Keys
      invariant Enumerates(visited, paths.Keys - remaining)
      invariant multiset(hops) == SumSeq(f, visited)
      decreases remaining
    {
      var t :| t in remaining;
      SumSeqAppend(f, visited, [t]);
      assert SumSeq(f, [t]) == f(t);
      EnumerationExtend(visited, paths.Keys, remaining, t);
      if t in targetSet {
        assert f(t) == multiset{paths[t]};
        hops := hops + [paths[t]];
      } else {
        assert f(t) == multiset{};
      }
      visited := visited + [t];
      remaining := remaining - {t};
    }
    SumOverEnumeration(TargetHop(paths, targetSet), paths.Keys, visited);
  }

  /**
   The hop counts from one source to every reachable target.  A failing search is
   reported and answers no hop counts, so one failing source does not stop the others.
   */
  method ComputeHopForNode(g: Graph, targetSet: set<Address>, node: Address) returns (hops: seq<nat>)
    ensures node !in g ==> hops == []
    ensures multiset(hops) == SourceHops(g, node, targetSet)
    // The length follows from the multiset and `SourceHopsSize`; stating it here as well
    // makes every caller's proof much more expensive.
  {
    var r := SingleSourceShortestPathLength(g, node);
    match r {
      case Err(_) =>
        hops := [];
        NoHopsFromNonNode(g, node, targetSet);
      case Ok(paths) =>
        hops := HopsToTargets(paths, targetSet);
    }
  }

  /**
   Sequential hop distribution: for every validated source, the hop counts of every
   reachable validated target, concatenated.
   */
  method ComputeHopDistribution(g: Graph, exchangeAddresses: seq<Address>, claimReceivers: seq<Address>)
    returns (hopCounts: seq<nat>)
    ensures multiset(hopCounts) == DistributionBag(g, NodesAmong(g, exchangeAddresses), NodesAmong(g, claimReceivers))
    ensures |hopCounts| == CountOver(ReachedTargets(g, NodesAmong(g, exchangeAddresses)), NodesAmong(g, claimReceivers))
  {
    var targetSet := ValidateAddresses(g, exchangeAddresses);
    var sourceSet := ValidateAddresses(g, claimReceivers);
    hopCounts := [];
    var remaining := sourceSet;
    ghost var f := SourceHopsOf(g, targetSet);
    ghost var visited: seq<Address> := [];
    while remaining != {}
      invariant remaining <= sourceSet
      invariant Enumerates(visited, sourceSet - remaining)
      invariant multiset(hopCounts) == SumSeq(f, visited)
      decreases remaining
    {
      var node :| node in remaining;
      var r := SingleSourceShortestPathLength(g, node);
      assert r.Ok?;
      var hops := HopsToTargets(r.value, targetSet);
      assert multiset(hops) == f(node);
      SumSeqAppend(f, visited, [node]);
      assert SumSeq(f, [node]) == f(node);
      EnumerationExtend(visited, sourceSet, remaining, node);
      hopCounts := hopCounts + hops;
      visited := visited + [node];
      remaining := remaining - {node};
    }
    SumOverEnumeration(f, sourceSet, visited);
    assert sourceSet == NodesAmong(g, claimReceivers) && targetSet == NodesAmong(g, exchangeAddresses);
    DistributionSize(g, targetSet, sourceSet);
  }

  /** Lists the elements of a set once each, in an unspecified order (Python's `list(s)`). */
  method ListOf(s: set<Address>) returns (xs: seq<Address>)
    ensures Enumerates(xs, s)
  {
    xs := [];
    var remaining := s;
    while remaining != {}
      invariant remaining <= s
      invariant Enumerates(xs, s - remaining)
      decreases remaining
    {
      var x :| x in remaining;
      EnumerationExtend(xs, s, remaining, x);
      xs := xs + [x];
      remaining := remaining - {x};
    }
  }

  /** The expected per-source hop multisets for the listed sources, one per source. */
  lemma ExpectedHops(g: Graph, targetSet: set<Address>, nodes: seq<Address>) returns (specs: seq<multiset<nat>>)
    ensures |specs| == |nodes|
    ensures forall j {:trigger SourceHops(g, nodes[j], targetSet)} :: 0 <= j < |nodes| ==> specs[j] == SourceHops(g, nodes[j], targetSet)
  {
    specs := seq(|nodes|, j requires 0 <= j < |nodes| => SourceHops(g, nodes[j], targetSet));
  }

  /** Applies `ComputeHopForNode` to every listed source, keeping the list's order (the pool's `map`). */
  method MapHopForNode(g: Graph, targetSet: set<Address>, nodes: seq<Address>) returns (results: seq<seq<nat>>)
    ensures |results| == |nodes|
    ensures forall i :: 0 <= i < |nodes| ==> multiset(results[i]) == SourceHops(g, nodes[i], targetSet)
  {
    ghost var specs := ExpectedHops(g, targetSet, nodes);
    results := [];
    for i := 0 to |nodes|
      invariant |results| == i
      invariant forall j :: 0 <= j < i ==> multiset(results[j]) == specs[j]
    {
      var hops := ComputeHopForNode(g, targetSet, nodes[i]);
      results := results + [hops];
    }
  }

  /** The total number of entries of the lists `xss`. */
  function TotalLength(xss: seq<seq<nat>>): nat
  {
    if xss == [] then 0 else |xss[0]| + TotalLength(xss[1..])
  }

  /** The lists `xss` concatenated in order. */
  function Flatten(xss: seq<seq<nat>>): (r: seq<nat>)
    ensures |r| == TotalLength(xss)
    ensures forall x :: x in r <==> exists i :: 0 <= i < |xss| && x in xss[i]
  {
    if xss == [] then [] else xss[0] + Flatten(xss[1..])
  }

  /**
   Parallel hop distribution: the per-source searches are mapped over the listed
   sources and their results concatenated.  When the map itself fails (the worker
   pool's error) the answer is empty.
   */
  method ComputeHopDistributionParallel(g: Graph, exchangeAddresses: seq<Address>, claimReceivers: seq<Address>, mapFails: bool)
    returns (hopCounts: seq<nat>)
    ensures mapFails ==> hopCounts == []
    ensures !mapFails ==> multiset(hopCounts) == DistributionBag(g, NodesAmong(g, exchangeAddresses), NodesAmong(g, claimReceivers))
    ensures !mapFails ==> |hopCounts| == CountOver(ReachedTargets(g, NodesAmong(g, exchangeAddresses)), NodesAmong(g, claimReceivers))
  {
    var targetSet := ValidateAddresses(g, exchangeAddresses);
    var sourceSet := ValidateAddresses(g, claimReceivers);
    if mapFails {
      return [];
    }
    var sources := ListOf(sourceSet);
    var results := MapHopForNode(g, targetSet, sources);
    hopCounts := Flatten(results);
    FlattenBag(SourceHopsOf(g, targetSet), sources, results);
    SumOverEnumeration(SourceHopsOf(g, targetSet), sourceSet, sources);
    assert sourceSet == NodesAmong(g, claimReceivers) && targetSet == NodesAmong(g, exchangeAddresses);
    DistributionSize(g, targetSet, sourceSet);
  }

  /**
   Without a pool failure, the sequential and the parallel hop distributions agree up to
   order: the same hop counts, each as often.
   */
  method SequentialMatchesParallel(g: Graph, exchangeAddresses: seq<Address>, claimReceivers: seq<Address>)
    returns (sequential: seq<nat>, parallel: seq<nat>)
    ensures multiset(sequential) == multiset(parallel)
    ensures |sequential| == |parallel|
  {
    sequential := ComputeHopDistribution(g, exchangeAddresses, claimReceivers);
    parallel := ComputeHopDistributionParallel(g, exchangeAddresses, claimReceivers, false);
  }

  // Lemmas

  /** The multiset of a concatenation of lists is the sum of the lists' multisets. */
  lemma {:induction false} FlattenBag(f: Address -> multiset<nat>, keys: seq<Address>, xss: seq<seq<nat>>)
    requires |keys| == |xss|
    requires forall i :: 0 <= i < |xss| ==> multiset(xss[i]) == f(keys[i])
    ensures multiset(Flatten(xss)) == SumSeq(f, keys)
    decreases |xss|
  {
    if xss != [] {
      FlattenBag(f, keys[1..], xss[1..]);
    }
  }

  /** A search from an address that is not a node reaches nothing. */
  lemma NoHopsFromNonNode(g: Graph, source: Address, targets: set<Address>)
    requires source !in g
    ensures ReachableSet(g, source) == {}
    ensures SourceHops(g, source, targets) == multiset{}
  {
    OnlyNodesReach(g, source);
  }

  /** Folding the one-element target multisets over `keys` yields one entry per target among `keys`. */
  lemma {:induction false} TargetHopSize(d: map<Address, nat>, targets: set<Address>, keys: set<Address>)
    requires keys <= d.Keys
    ensures |SumOver(TargetHop(d, targets), keys)| == |keys * targets|
    decreases keys
  {
    if keys != {} {
      var x := Pick(keys);
      var rest := keys - {x};
      TargetHopSize(d, targets, rest);
      assert SumOver(TargetHop(d, targets), keys) == SumOver(TargetHop(d, targets), rest) + TargetHop(d, targets)(x);
      if x in targets {
        assert TargetHop(d, targets)(x) == multiset{d[x]};
        assert keys * targets == rest * targets + {x};
        assert x !in rest * targets;
      } else {
        assert TargetHop(d, targets)(x) == multiset{};
        assert keys * targets == rest * targets;
      }
    }
  }

  /** A source emits exactly one hop count per reachable target. */
  lemma SourceHopsSize(g: Graph, source: Address, targets: set<Address>)
    ensures |SourceHops(g, source, targets)| == |ReachableSet(g, source) * targets|
  {
    assert ShortestMap(g, source).Keys == ReachableSet(g, source);
    TargetHopSize(ShortestMap(g, source), targets, ShortestMap(g, source).Keys);
  }

  /** Every emitted hop count is the shortest distance from the source to some target. */
  lemma SourceHopsAreShortest(g: Graph, source: Address, targets: set<Address>, h: nat)
    requires h in SourceHops(g, source, targets)
    ensures exists t :: t in targets && IsShortest(g, source, t, h)
  {
    var d := ShortestMap(g, source);
    SumOverMembers(TargetHop(d, targets), d.Keys, h);
    var t :| t in d.Keys && h in TargetHop(d, targets)(t);
    assert t in targets && h == d[t];
  }

  /** Conversely, every reachable target contributes its shortest distance from the source. */
  lemma ShortestHopsEmitted(g: Graph, source: Address, targets: set<Address>, t: Address)
    requires t in ReachableSet(g, source) * targets
    ensures Distance(g, source, t) in SourceHops(g, source, targets)
  {
    var d := ShortestMap(g, source);
    assert t in d.Keys && TargetHop(d, targets)(t) == multiset{Distance(g, source, t)};
    SumOverMembers(TargetHop(d, targets), d.Keys, Distance(g, source, t));
  }

  /** Counting zeros over `keys`: only the source can be at hop count 0. */
  lemma {:induction false} TargetHopZeros(g: Graph, source: Address, targets: set<Address>, keys: set<Address>)
    requires keys <= ShortestMap(g, source).Keys
    ensures SumOver(TargetHop(ShortestMap(g, source), targets), keys)[0] == if source in keys && source in targets then 1 else 0
    decreases keys
  {
    if keys != {} {
      var d := ShortestMap(g, source);
      var x := Pick(keys);
      TargetHopZeros(g, source, targets, keys - {x});
      OnlySourceAtZero(g, source, x);
    }
  }

  /**
   A source emits the hop count 0 once when it is itself a target and a node, and never
   otherwise: every other emitted hop count is at least 1.
   */
  lemma SourceHopsZeros(g: Graph, source: Address, targets: set<Address>)
    ensures SourceHops(g, source, targets)[0] == if source in g && source in targets then 1 else 0
  {
    var d := ShortestMap(g, source);
    TargetHopZeros(g, source, targets, d.Keys);
    if source in g {
      assert IsWalk(g, [source]);
      assert HasWalk(g, source, source, 0);
      assert source in ReachableSet(g, source);
    } else {
      NoHopsFromNonNode(g, source, targets);
    }
  }

  /** The size of the distribution is the number of (source, reachable target) pairs. */
  lemma DistributionSize(g: Graph, targets: set<Address>, sources: set<Address>)
    ensures |DistributionBag(g, targets, sources)| == CountOver(ReachedTargets(g, targets), sources)
  {
    forall s | s in sources
      ensures |SourceHopsOf(g, targets)(s)| == ReachedTargets(g, targets)(s)
    {
      SourceHopsSize(g, s, targets);
    }
    SumOverSize(SourceHopsOf(g, targets), ReachedTargets(g, targets), sources);
  }

  /** No validated sources, or no validated targets, give an empty distribution. */
  lemma {:induction false} EmptyDistribution(g: Graph, targets: set<Address>, sources: set<Address>)
    requires targets == {} || sources == {}
    ensures DistributionBag(g, targets, sources) == multiset{}
    decreases sources
  {
    if sources != {} {
      var s := Pick(sources);
      EmptyDistribution(g, targets, sources - {s});
      SourceHopsSize(g, s, targets);
    }
  }

  // A worked example

  /** Five different addresses. */
  predicate Distinct5(a: Address, b: Address, c: Address, d: Address, e: Address)
  {
    && a != b && a != c && a != d && a != e
    && b != c && b != d && b != e
    && c != d && c != e
    && d != e
  }

  /** Transfers a→b, b→c and d→e. */
  function ChainGraph(a: Address, b: Address, c: Address, d: Address, e: Address): Graph
  {
    map[a := {b}, b := {c}, c := {}, d := {e}, e := {}]
  }

  /** From a, the search reaches a, b and c at hop counts 0, 1 and 2. */
  lemma ChainFromA(a: Address, b: Address, c: Address, d: Address, e: Address)
    requires Distinct5(a, b, c, d, e)
    ensures ShortestMap(ChainGraph(a, b, c, d, e), a) == map[a := 0, b := 1, c := 2]
  {
    var g := ChainGraph(a, b, c, d, e);
    var dist: map<Address, nat> := map[a := 0, b := 1, c := 2];
    assert HasPredecessor(g, dist, b) by { assert b in g[a]; }
    assert HasPredecessor(g, dist, c) by { assert c in g[b]; }
    assert IsDistanceMap(g, a, dist);
    DistanceMapIsShortestMap(g, a, dist);
  }

  /** From d, the search reaches d and e at hop counts 0 and 1. */
  lemma ChainFromD(a: Address, b: Address, c: Address, d: Address, e: Address)
    requires Distinct5(a, b, c, d, e)
    ensures ShortestMap(ChainGraph(a, b, c, d, e), d) == map[d := 0, e := 1]
  {
    var g := ChainGraph(a, b, c, d, e);
    var dist: map<Address, nat> := map[d := 0, e := 1];
    assert HasPredecessor(g, dist, e) by { assert e in g[d]; }
    assert IsDistanceMap(g, d, dist);
    DistanceMapIsShortestMap(g, d, dist);
  }

  /** a emits the single hop count 2, for c. */
  lemma ChainHopsFromA(a: Address, b: Address, c: Address, d: Address, e: Address)
    requires Distinct5(a, b, c, d, e)
    ensures SourceHops(ChainGraph(a, b, c, d, e), a, {c}) == multiset{2}
  {
    var dist: map<Address, nat> := map[a := 0, b := 1, c := 2];
    var f := TargetHop(dist, {c});
    ChainFromA(a, b, c, d, e);
    assert dist.Keys == {a, b, c};
    SumOverEnumeration(f, dist.Keys, [a, b, c]);
    assert f(a) == multiset{} && f(b) == multiset{} && f(c) == multiset{2};
    assert [a, b, c][1..] == [b, c] && [b, c][1..] == [c];
    assert SumSeq(f, [c]) == multiset{2};
    assert SumSeq(f, [b, c]) == multiset{2};
  }

  /** d emits nothing: it reaches no target. */
  lemma ChainHopsFromD(a: Address, b: Address, c: Address, d: Address, e: Address)
    requires Distinct5(a, b, c, d, e)
    ensures SourceHops(ChainGraph(a, b, c, d, e), d, {c}) == multiset{}
  {
    var dist: map<Address, nat> := map[d := 0, e := 1];
    var f := TargetHop(dist, {c});
    ChainFromD(a, b, c, d, e);
    assert dist.Keys == {d, e};
    SumOverEnumeration(f, dist.Keys, [d, e]);
    assert f(d) == multiset{} && f(e) == multiset{};
    assert [d, e][1..] == [e];
    assert SumSeq(f, [e]) == multiset{};
  }

  /**
   With target c and sources a and d, a reaches c in two hops and d reaches no target,
   so the distribution is the single hop count 2.
   */
  lemma ChainScenario(a: Address, b: Address, c: Address, d: Address, e: Address)
    requires Distinct5(a, b, c, d, e)
    ensures DistributionBag(ChainGraph(a, b, c, d, e), {c}, {a, d}) == multiset{2}
  {
    var f := SourceHopsOf(ChainGraph(a, b, c, d, e), {c});
    ChainHopsFromA(a, b, c, d, e);
    ChainHopsFromD(a, b, c, d, e);
    SumOverEnumeration(f, {a, d}, [a, d]);
    assert f(a) == multiset{2} && f(d) == multiset{};
    assert [a, d][1..] == [d];
    assert SumSeq(f, [d]) == multiset{};
  }
}

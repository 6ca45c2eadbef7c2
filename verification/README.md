# Hop distribution and block batching, modelled in Dafny

The modelled system measures how far airdrop claim receivers are from centralized-exchange
deposit addresses in a transfer graph. It also splits block ranges into batches for log
crawling. This project models and proves two pure pieces of it.

- **Hop distribution** (`src/compute_hops_distribution.py`).
  - The exchange addresses (targets) and claim receivers (sources) are first filtered down
    to nodes of the directed transfer graph. Duplicates collapse.
  - For every remaining source, an unweighted breadth-first search finds the hop count of
    every node it reaches, as networkx's `single_source_shortest_path_length` does.
  - The hop count of *every* reached target is emitted, not only the nearest one. The
    per-source lists are concatenated.
  - The sequential version iterates over the source set. The parallel version maps
    `compute_hop_for_node` over `list(source_set)` in a worker pool and flattens the results.
  - Python set and dictionary order decides the order of the output. The model therefore
    states every result as a multiset and compares it with the ghost reference
    `HopDistribution.DistributionBag`. That reference is the sum, over the validated
    sources, of one shortest hop count per reachable validated target.
- **Block batching** (`get_batch_intervals` in `src/ethereum.py`).
  - The batch starts are Python's `range(block_start, block_end, batch_size)`.
  - Each batch ends at `min(start + batch_size - 1, block_end)`. Both ends are inclusive.
  - Python's `range` rejects a zero step with a `ValueError`; the model returns an `Err`
    for it.

Modules, one per file:

- `Results`: the `Result` type for error paths.
- `Graphs`: the graph, walks, reachability and the ghost shortest-distance map
  `ShortestMap`.
  - A graph is a map from node to successor set, and every successor is itself a node. A
    networkx `DiGraph` always satisfies this.
- `Bags`: multiset folds over sets and sequences. Their key lemma says that the order of
  listing a set does not change the fold.
- `Bfs`: the level-synchronous search that networkx performs, proved to answer exactly
  `ShortestMap`.
- `HopDistribution`: the operations of `compute_hops_distribution.py` and their
  properties.
- `Batching`: Python's `range` and `get_batch_intervals`.

The code emits the unweighted hop count of every reachable target, including the source
itself (hop count 0) when it is also a target. It does not reduce each source to its
nearest target.

## Model

| member | source | states |
|---|---|---|
| HopDistribution.ValidateAddresses | src/compute_hops_distribution.py:83-86 | The validated set holds exactly the given addresses that are graph nodes: absent ones are dropped, duplicates collapse, and it is no larger than the input. The parallel version validates the same way (lines 33-36). |
| Bfs.SingleSourceShortestPathLength | src/compute_hops_distribution.py:23 | A source that is not a node fails with `NodeNotFound`. Otherwise the answer has source 0, reaches at most one hop past any reached node along an edge, and gives every other node a predecessor one hop nearer. It equals the map of shortest hop counts of all reachable nodes. |
| Bfs.DistanceMapIsShortestMap | src/compute_hops_distribution.py:89 | Any map with that local characterisation has exactly the reachable nodes as keys, and their shortest-walk lengths as values. |
| Bfs.OnlySourceAtZero | src/compute_hops_distribution.py:23-24 | In a shortest-distance map, hop count 0 belongs to the source and to no other node. |
| HopDistribution.HopsToTargets | src/compute_hops_distribution.py:24 | Filtering a search result by the target set yields, as a multiset, one hop count per reached target, whatever order the dictionary is visited in. |
| HopDistribution.ComputeHopForNode | src/compute_hops_distribution.py:21-27 | A failing search (a source that is not a node) yields `[]`. Otherwise the result holds the shortest hop count of every reachable target, once each. |
| HopDistribution.NoHopsFromNonNode | src/compute_hops_distribution.py:25-27 | An address that is not a node reaches nothing and contributes no hop counts. |
| HopDistribution.SourceHopsSize | src/compute_hops_distribution.py:24 | The per-source list has exactly one entry per target reachable from the source. Unreachable targets contribute nothing. |
| HopDistribution.SourceHopsAreShortest | src/compute_hops_distribution.py:23-24 | Every emitted value is the length of a shortest directed walk from the source to some target. |
| HopDistribution.ShortestHopsEmitted | src/compute_hops_distribution.py:23-24 | Conversely, every target reachable from the source contributes its shortest hop count. |
| HopDistribution.SourceHopsZeros | src/compute_hops_distribution.py:23-24 | A source contributes the value 0 exactly once when it is a node and a target, and never otherwise. Every other value is at least 1. |
| HopDistribution.ComputeHopDistribution | src/compute_hops_distribution.py:81-93 | The sequential result is, as a multiset, the reference distribution. Its length is the number of (validated source, reachable validated target) pairs. |
| Bags.SumOverEnumeration | src/compute_hops_distribution.py:88 | Any duplicate-free listing of a set gives the same fold, so the iteration order over the source set does not matter. |
| HopDistribution.ListOf | src/compute_hops_distribution.py:42 | `list(source_set)` lists every validated source exactly once. |
| HopDistribution.MapHopForNode | src/compute_hops_distribution.py:38-42 | The pool's `map` yields one list per listed source, in order, and the i-th holds the hop counts of the i-th source. |
| HopDistribution.Flatten | src/compute_hops_distribution.py:48 | The flattened list's length is the sum of the sublist lengths, and it holds exactly the values found in some sublist. |
| HopDistribution.FlattenBag | src/compute_hops_distribution.py:48 | The multiset of the flattened list is the sum of the sublists' multisets. |
| HopDistribution.ComputeHopDistributionParallel | src/compute_hops_distribution.py:31-49 | A failure of the whole map yields an empty result. Otherwise the result is the reference distribution, with one entry per (source, reachable target) pair. |
| HopDistribution.SequentialMatchesParallel | src/compute_hops_distribution.py:38-48 | Without a pool failure, the parallel and sequential versions (lines 81-93) produce the same multiset of hop counts. |
| HopDistribution.DistributionSize | src/compute_hops_distribution.py:88-91 | The size of the reference distribution is the sum, over the sources, of the number of targets each reaches. |
| HopDistribution.EmptyDistribution | src/compute_hops_distribution.py:83-93 | An empty validated source set or an empty validated target set gives an empty distribution. |
| HopDistribution.ChainScenario | src/compute_hops_distribution.py:81-93 | For transfers a→b, b→c and d→e, with target c and sources a and d, the distribution is the single hop count 2. |
| Batching.GetBatchIntervals | src/ethereum.py:78-87 | A zero batch size is an error, as Python's `range` raises, and every other batch size gives a list of batches. |
| Batching.RangeMembers | src/ethereum.py:82 | For a positive step, the batch starts are exactly the numbers from `block_start` below `block_end` that are a whole number of steps from `block_start`. |
| Batching.BatchCount | src/ethereum.py:82 | With a positive batch size there are `ceil((block_end - block_start) / batch_size)` batches, and none exactly when `block_start >= block_end`. |
| Batching.BatchShape | src/ethereum.py:82-85 | The i-th batch starts at `block_start + i * batch_size` and ends at `min(start + batch_size - 1, block_end)`. |
| Batching.BatchBounds | src/ethereum.py:82-86 | Every batch lies within `block_start..block_end`, starts no later than it ends, and is at most `batch_size` wide. Each batch starts right after its predecessor ends. |
| Batching.BatchCoverage | src/ethereum.py:82-86 | Every block of `block_start..block_end - 1` lies in some batch, and no block lies in two. |
| Batching.BatchLastEnd | src/ethereum.py:82-85 | The last batch ends at `block_end`, unless `batch_size` divides `block_end - block_start`. Then it ends at `block_end - 1`, and `block_end` is covered exactly when it does not divide. |
| Batching.NegativeBatchSize | src/ethereum.py:82-85 | A negative batch size yields no batch when `block_start <= block_end`. Otherwise the i-th batch starts at `block_start + i * batch_size`, counting down, and every batch ends before it starts, so it covers no block. |
| Batching.BlockEndSkipped | src/ethereum.py:82-85 | As written, `(0, 10, 5)` gives `(0, 4), (5, 9)` and skips block 10, while `(0, 11, 5)` covers block 11. |
| Batching.InclusiveBatchPartition | src/ethereum.py:82-85 | With the starts running to `block_end + 1`, the batches cover exactly the blocks `block_start..block_end`. Each block is in exactly one batch, at most `batch_size` wide, and batches are adjacent. |

## Left out

- Graph loading, address loading and result persistence (`src/compute_hops_distribution.py:53-77`, `107-111`): file I/O, gzip, pickle and JSON. The graph and the address lists are parameters.
- `check_for_hops` (`src/compute_hops_distribution.py:96-104`): it prints two lengths and calls the parallel version, which is modelled.
- `process_protocols` and `main`: orchestration and wall-clock timing only.
- The worker pool itself: process creation, the worker count `cpu_count() - 1`, and `Pool(0)` raising outside the `try`. Any exception from `pool.map` is the boolean parameter `mapFails`. The scheduling of workers does not change the result.
- Printing, `traceback` output and `tqdm` progress bars.
- pandas `Series`: modelled as `seq<nat>`.
- The order of the hop counts: it follows Python set iteration order (string hashing, randomised per process) and dictionary insertion order, so every hop-distribution result is stated as a multiset.
- networkx internals: the search's early exit once every node has been seen does not change its answer, and the unused `cutoff` is not modelled. The one failure modelled for a single source is a missing node. No other exception can arise from a search on a validated graph.
- All Etherscan, Web3 and RPC functions of `src/ethereum.py`, including the thread pools that fetch the batches: network I/O.
- `to_checksum_address`: an EIP-55 checksum that needs Keccak-256 from an external library. Addresses are compared as plain strings.
- `src/plot_utils.py`: plotting and floating-point ECDF.

## Findings

| source | as written | input that shows it | evidently intended | confidence | as-written member | corrected member |
|---|---|---|---|---|---|---|
| src/ethereum.py:82-85 | The batch starts stop before `block_end`, so when `batch_size` divides `block_end - block_start` no batch reaches `block_end`. When it does not divide, the last batch is capped at `block_end` and includes it. | `get_batch_intervals(0, 10, 5)` gives `[(0, 4), (5, 9)]` and skips block 10, yet `(0, 11, 5)` gives `[(0, 4), (5, 9), (10, 11)]` and covers block 11. | Cover `block_start..block_end` inclusively in every case, with starts `range(block_start, block_end + 1, batch_size)`. The cap at `block_end`, the inclusive `toBlock` the callers pass on, and the comment naming `pd.interval_range` (which reaches `end`) all point this way. | medium; not executed | Batching.BlockEndSkipped | Batching.InclusiveBatchPartition |

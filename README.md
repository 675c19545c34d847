# Kuo's algorithm: a verified model

This project models the driver-set search of `kuos_algorithm/new_kuo.py` and the edge
undo stack of its predecessor `kuos_algorithm/kuo.py`, and proves what they compute.

The search looks for a small *driver set* S0 of nodes in a directed graph. From S0, the
*implication cascade* reaches every node. The cascade repeatedly takes the unreached nodes
that no remaining edge enters as a new level, marks them reached and removes their
out-edges. It succeeds when every node is reached and fails at a dead end.
`kuos_algorithm` starts from the nodes without predecessors. It then tries driver-set sizes
`k = |S0|, |S0| + 1, ..., |nodes|` in turn. For each size, `run_combination` grows S0 by
backtracking over candidates ranked by a heuristic score. All exploration mutates one
`SGraph` in place and is undone edge by edge from a restore stack.

The model is in six files:

- `digraph.dfy` (module `Digraph`). An abstract networkx `DiGraph`:
  - nodes are strings and edges are pairs;
  - successors, predecessors and degrees are read off an edge set;
  - Python's string order breaks ties between equal scores.
- `sgraph.dfy` (module `NewKuoGraph`). The `SGraph` class of new_kuo.py:
  - its fields are the edges, the levels `sets`, `reachable`, the restore stack and the
    in-degree cache;
  - its methods update them in place;
  - the invariant `Valid` says that the cache is exact, that every edge is either present
    or on the stack, and that the levels partition the reached nodes.
- `ranking.dfy` (module `Ranking`):
  - `score_node`;
  - `heapq.nlargest` over `(score, node)` keys;
  - `find_candidates`.
- `search_spec.dfy` (module `SearchSpec`). What the search computes, as functions of the
  entry state:
  - `Cascade`, the implication cascade;
  - `Search` and `TryCandidates`, the backtracking of `run_combination`;
  - `Escalate`, the size loop of `kuos_algorithm`;

  together with what is proved about them:
  - a successful cascade's levels partition the unreached nodes;
  - every driver set found has exactly `k` nodes and its cascade reaches every node;
  - the search always succeeds at `k = |nodes|`;
  - the size returned is the first size at which the search succeeds;
  - without a timeout the escalation always completes (in the model, whose recursion has
    no depth limit; see "## Left out").
- `new_kuo.dfy` (module `NewKuo`). `implication`, `run_combination` and `kuos_algorithm`
  as methods that mutate the graph and undo their mutations. Each is proved equal to its
  `SearchSpec` function. On failure `implication` and `run_combination` are proved to give
  back the exact state they were entered in. `kuos_algorithm` does not undo its start: on
  a timeout it leaves S0 as the only level and the only reached nodes, with S0's
  out-edges removed, and on completion it leaves no edge at all.
- `old_kuo.dfy` (module `OldKuo`). kuo.py's `SGraph`, which has only the undo stack. It
  has step functions on snapshots and a class whose methods follow them. It proves that
  removing distinct present edges and restoring as many times returns the graph and the
  stack to their start.

Points where the model settles something the source leaves implicit:

- Ties between equal scores. `heapq.nlargest` compares `(score, node)` tuples, so among
  equal scores the larger node identifier comes first (new_kuo.py:145-149). The model uses
  that order, not an insertion order.
- Negative in-degrees. The source never checks for them. The model proves they cannot
  happen, because the cache always equals the live in-degree.
- The defensive skip `if node in graph.reachable: continue` (new_kuo.py:168-169) is
  proved never to be taken. Candidates are drawn from the unreached nodes, and every failed
  branch restores `reachable`. The model therefore has `assert false` in that branch.
- The final `return set(), False` (new_kuo.py:231) is unreachable. The comment at line 230
  says an empty graph reaches it. It does not: at `k = 0` the cascade of an empty graph
  succeeds at once. Every size-escalation run either completes or stops on a timeout
  (`EscalateCompletes`, `EscalateTimedOut`). The model keeps the return as written.
- The clock. Each clock check of `kuos_algorithm` is an oracle `expired(k)`, read before
  size `k` is tried.

## Model

| member | source | states |
|---|---|---|
| Digraph.Successors | kuos_algorithm/new_kuo.py:54 | `v` is a successor of `u` exactly when the edge `(u, v)` is present |
| Digraph.Predecessors | kuos_algorithm/new_kuo.py:83 | `u` is a predecessor of `v` exactly when the edge `(u, v)` is present (the in-degree counts them) |
| Digraph.OutDegree | kuos_algorithm/new_kuo.py:80 | reference definition: the out-degree is the number of successors |
| Digraph.InDegree | kuos_algorithm/new_kuo.py:83 | reference definition: the in-degree is the number of predecessors |
| Digraph.Endpoints | kuos_algorithm/new_kuo.py:9-10 | a graph built from a list of edges holds both endpoints of every edge, and no other node |
| Digraph.InDegreeAfterRemove | kuos_algorithm/new_kuo.py:34-37 | removing a present edge `(u, v)` lowers the in-degree of `v` by one and leaves every other in-degree unchanged |
| Digraph.InDegreeAfterAdd | kuos_algorithm/new_kuo.py:45-47 | adding an absent edge `(u, v)` raises the in-degree of `v` by one and leaves every other in-degree unchanged |
| Digraph.Below | kuos_algorithm/new_kuo.py:149 | reference definition of Python's `<` on strings: code points compared from the left, a proper prefix first |
| Digraph.BelowTotal | kuos_algorithm/new_kuo.py:149 | Python's string order, which breaks score ties, relates any two distinct node identifiers |
| Digraph.BelowTransitive | kuos_algorithm/new_kuo.py:149 | Python's string order is transitive |
| Digraph.BelowAsymmetric | kuos_algorithm/new_kuo.py:149 | Python's string order is asymmetric |
| NewKuoGraph.PartitionAppend | kuos_algorithm/new_kuo.py:110-111 | appending a level of unreached nodes and marking them reached keeps the levels a partition of the reached nodes |
| NewKuoGraph.PartitionDropLast | kuos_algorithm/new_kuo.py:127-128 | popping the last level and un-reaching its nodes keeps the partition |
| NewKuoGraph.PartitionAddFirst | kuos_algorithm/new_kuo.py:172-173 | adding an unreached node to S0 and to the reached set keeps the partition |
| NewKuoGraph.PartitionRemoveFirst | kuos_algorithm/new_kuo.py:186-187 | taking a node of S0 out of S0 and of the reached set keeps the partition |
| NewKuoGraph.NoDuplicatesCard | kuos_algorithm/new_kuo.py:57-60 | a list of distinct edges has as many entries as it holds edges, so the returned count is the number of removed edges |
| NewKuoGraph.CacheAfterRemove | kuos_algorithm/new_kuo.py:34-37 | decrementing the cached in-degree of `v` when `(u, v)` is removed keeps the cache exact |
| NewKuoGraph.CacheAfterAdd | kuos_algorithm/new_kuo.py:45-47 | incrementing the cached in-degree of `v` when `(u, v)` is put back keeps the cache exact |
| NewKuoGraph.AccountedPush | kuos_algorithm/new_kuo.py:34-35 | removing a present edge and pushing it keeps every edge either present or stacked, never both, and the stack free of repeats |
| NewKuoGraph.AccountedPop | kuos_algorithm/new_kuo.py:44-45 | the popped edge is an original edge that is absent, and re-adding it keeps the accounting |
| NewKuoGraph.SGraph.constructor | kuos_algorithm/new_kuo.py:9-19 | the graph holds the listed edges and their endpoints, with no levels, nothing reached, an empty stack, an exact cache, and the invariant established |
| NewKuoGraph.SGraph.RefreshDegreeCache | kuos_algorithm/new_kuo.py:21-23 | afterwards the cache holds, for every node, its live in-degree |
| NewKuoGraph.SGraph.GetZeroIndegreeNodes | kuos_algorithm/new_kuo.py:25-30 | under the invariant, a node is returned exactly when no present edge enters it and, if reached nodes are excluded, it is unreached |
| NewKuoGraph.SGraph.RemoveEdge | kuos_algorithm/new_kuo.py:32-38 | a present edge is removed, pushed, and its target's cached in-degree is lowered; an absent edge raises with nothing changed; the invariant is kept |
| NewKuoGraph.SGraph.RestoreEdge | kuos_algorithm/new_kuo.py:40-48 | with an empty stack nothing changes and the result is None; otherwise the last pushed edge, which is absent, is popped, added back and returned, and its target's cached in-degree rises; the invariant is kept |
| NewKuoGraph.SGraph.ListOutEdges | kuos_algorithm/new_kuo.py:52-55 | the list holds exactly the out-edges of the given nodes, each once |
| NewKuoGraph.SGraph.RemoveListedEdges | kuos_algorithm/new_kuo.py:57-58 | the listed edges are removed and pushed in list order |
| NewKuoGraph.SGraph.RemoveNodeSuccessors | kuos_algorithm/new_kuo.py:50-60 | exactly the out-edges of the given nodes are removed, so none of them keeps a successor; the stack grows by exactly those edges; the count returned is their number |
| Ranking.Score | kuos_algorithm/new_kuo.py:75-94 | the score is out-degree minus in-degree plus an even reach bonus between 0 and twice the out-degree: none when every successor is reached, all of it when none is |
| Ranking.KeyAbove | kuos_algorithm/new_kuo.py:145-149 | reference definition of the tuple comparison `(score, node) > (score', node')`: a higher score, or an equal score and a larger identifier |
| Ranking.KeyAboveOrder | kuos_algorithm/new_kuo.py:145-149 | the `(score, node)` key order is total, asymmetric and transitive |
| Ranking.LargestExists | kuos_algorithm/new_kuo.py:149 | every nonempty candidate set has one candidate whose key is above all others |
| Ranking.Largest | kuos_algorithm/new_kuo.py:149 | the candidate whose `(score, node)` key is above all others; it is a candidate |
| Ranking.LargestIsAbove | kuos_algorithm/new_kuo.py:149 | the chosen largest candidate's key is above that of every other candidate |
| Ranking.RankedPrefixCons | kuos_algorithm/new_kuo.py:149 | the largest candidate followed by a ranked list of the rest is a ranked list of all |
| Ranking.TopN | kuos_algorithm/new_kuo.py:149 | reference definition of `heapq.nlargest(n, ...)`: the largest candidate, then `nlargest(n - 1)` of the rest; every entry is a candidate |
| Ranking.TopNLength | kuos_algorithm/new_kuo.py:149 | `nlargest(n)` lists `n` candidates, or all of them when there are fewer |
| Ranking.TopNRanked | kuos_algorithm/new_kuo.py:149 | `nlargest(n)` lists candidates in decreasing key order, and every candidate left out has a key below each listed one |
| Ranking.FindCandidates | kuos_algorithm/new_kuo.py:139-149 | every candidate is a node that is not reached |
| Ranking.FindCandidatesRanked | kuos_algorithm/new_kuo.py:139-149 | there are `k_remaining + min(10, m)` candidates out of the `m` unreached nodes (all of them when fewer, none when that is not positive), distinct and in strictly decreasing key order, and every unreached node left out ranks below each candidate |
| SearchSpec.Frontier | kuos_algorithm/new_kuo.py:106 | reference definition of `get_zero_indegree_nodes()`: the unreached nodes no present edge enters |
| SearchSpec.Cascade | kuos_algorithm/new_kuo.py:97-136 | reference definition of the implication cascade: peel the frontier as a level, drop its out-edges and repeat; the levels when every node is reached, None at an empty frontier |
| SearchSpec.CascadeStep | kuos_algorithm/new_kuo.py:105-120 | a successful cascade that is not done has the frontier as its first level and continues as the cascade after peeling it |
| SearchSpec.AllReachedBySize | kuos_algorithm/new_kuo.py:100 | the test `len(reachable) == len(nodes)` holds exactly when every node is reached |
| SearchSpec.CascadeDone | kuos_algorithm/new_kuo.py:99-103 | with every node reached the cascade succeeds with no further levels |
| SearchSpec.CascadeStuck | kuos_algorithm/new_kuo.py:133-136 | with nodes unreached and an empty frontier the cascade fails |
| SearchSpec.CascadeAdvances | kuos_algorithm/new_kuo.py:105-124 | peeling a nonempty frontier leaves fewer unreached nodes, and the cascade succeeds exactly when the cascade after peeling does, with the frontier prepended to its levels |
| SearchSpec.CascadeLevels | kuos_algorithm/new_kuo.py:97-136 | a successful cascade's levels split the unreached nodes into nonempty, pairwise disjoint parts, no more of them than those nodes |
| SearchSpec.Search | kuos_algorithm/new_kuo.py:152-191 | reference definition of `run_combination(k)`: at size `k` or more the cascade decides and S0 is the answer; below it, the candidate loop over `find_candidates(k - |S0|)` |
| SearchSpec.TryCandidates | kuos_algorithm/new_kuo.py:166-191 | reference definition of the candidate loop: skip a reached candidate; otherwise search with it added to S0 and reached and its out-edges dropped, the first success winning |
| SearchSpec.SearchEntersCandidates | kuos_algorithm/new_kuo.py:163-166 | below size `k` the search is the candidate loop over the ranked candidates for the missing places |
| SearchSpec.TryCandidateStep | kuos_algorithm/new_kuo.py:166-183 | on an unreached candidate, the search below it decides, and on its failure the loop moves to the next candidate |
| SearchSpec.TryCandidateSkip | kuos_algorithm/new_kuo.py:179-191 | a candidate whose search failed is passed over |
| SearchSpec.SearchSound | kuos_algorithm/new_kuo.py:152-191 | a driver set the search finds extends S0 by unreached nodes only, has exactly `k` nodes when S0 had fewer (S0 itself otherwise), and its cascade reaches every node |
| SearchSpec.TryCandidatesSound | kuos_algorithm/new_kuo.py:166-191 | the same for a driver set found by the candidate loop from any position |
| SearchSpec.SearchSucceedsAtFullSize | kuos_algorithm/new_kuo.py:152-191 | when `k` is `|S0|` plus the number of unreached nodes, the search succeeds |
| SearchSpec.EscalationEndsByNodeCount | kuos_algorithm/new_kuo.py:212 | from the initial driver set, the search at `k = |nodes|` succeeds, the empty graph included |
| SearchSpec.Escalate | kuos_algorithm/new_kuo.py:209-231 | reference definition of the size loop: past `|nodes|` the empty set and false; an expired clock gives S0 and false; a successful search gives its driver set and true; a failure moves to the next size |
| SearchSpec.EscalateStep | kuos_algorithm/new_kuo.py:212-228 | at a size in range, an expired clock stops the loop with S0 and false; otherwise a success gives the driver set and true, and a failure moves to the next size |
| SearchSpec.EscalateResumes | kuos_algorithm/new_kuo.py:212-228 | once the sizes below `k` have been passed without timeout or success, the loop from the first size gives what the loop from `k` gives |
| SearchSpec.EscalateCompletes | kuos_algorithm/new_kuo.py:212-231 | without a timeout the loop completes, so the fallback after it is never reached |
| SearchSpec.DriverSearchSound | kuos_algorithm/new_kuo.py:223-228 | a search from S0 alone at size `k` finds a driver set of exactly `k` nodes containing S0, whose cascade reaches every node |
| SearchSpec.EscalateFound | kuos_algorithm/new_kuo.py:212-228 | a completed loop returns the driver set the search finds at that set's own size, which lies between the first size tried and `|nodes|` |
| SearchSpec.EscalateFirst | kuos_algorithm/new_kuo.py:212-228 | a completed loop found nothing at any smaller size it tried |
| SearchSpec.EscalateStops | kuos_algorithm/new_kuo.py:223-228 | a success at the current size ends the loop with that driver set, whose size is the current size |
| SearchSpec.EscalateSkips | kuos_algorithm/new_kuo.py:222-228 | a failure at the current size moves the loop to the next size |
| SearchSpec.EscalateSound | kuos_algorithm/new_kuo.py:194-231 | on completion the result extends S0, its cascade reaches every node, and the search failed at every smaller size from `|S0|` on |
| SearchSpec.EscalateTimedOut | kuos_algorithm/new_kuo.py:212-217 | a loop that does not complete returns S0, and the clock was found expired at some size from the first one to `|nodes|` |
| NewKuo.RestoreEdges | kuos_algorithm/new_kuo.py:129-130 | `count` calls of `restore_edge` pop the last `count` stacked edges (all of them when fewer) and put them back, keeping the invariant |
| NewKuo.UndoRemoval | kuos_algorithm/new_kuo.py:117-130 | popping as many edges as `remove_node_successors` pushed gives back the edge set and the stack it started from |
| NewKuo.CacheDetermined | kuos_algorithm/new_kuo.py:21-23 | two exact caches of the same graph are equal, so a restored graph has its old cache back |
| NewKuo.EnterLevel | kuos_algorithm/new_kuo.py:110-117 | the new level is appended and reached, its out-edges are removed, and the stack grows by exactly those edges |
| NewKuo.LeaveLevel | kuos_algorithm/new_kuo.py:127-130 | popping the level, un-reaching it and restoring the removed edges gives back the whole state before the level was entered |
| NewKuo.Implication | kuos_algorithm/new_kuo.py:97-136 | it succeeds exactly when the cascade from the entry state does; on success the cascade's levels are appended, every node is reached and the out-edges of every newly reached node are gone; on failure the state is unchanged |
| NewKuo.AddDriver | kuos_algorithm/new_kuo.py:172-176 | the node joins S0 and the reached set, its out-edges are removed, and the stack grows by exactly those edges |
| NewKuo.UndoAddFirst | kuos_algorithm/new_kuo.py:172-187 | adding a node to S0 and removing it again gives back the levels |
| NewKuo.UnmarkDriver | kuos_algorithm/new_kuo.py:186-187 | taking the node out of S0 and out of the reached set gives back the levels and the reached set it was added to, keeping the invariant |
| NewKuo.RemoveDriver | kuos_algorithm/new_kuo.py:186-189 | removing the node from S0 and the reached set and restoring its edges gives back the whole state before it was added |
| NewKuo.RunCombination | kuos_algorithm/new_kuo.py:152-191 | it succeeds exactly when the search from the entry state does; on success S0 is the driver set the search finds, every node is reached and the out-edges of every newly reached node are gone; on failure the state is unchanged |
| NewKuo.StartDriverSet | kuos_algorithm/new_kuo.py:197-206 | S0 is the set of unreached nodes without predecessors; it becomes the only level and the reached set, and its out-edges are removed |
| NewKuo.EscalateSizes | kuos_algorithm/new_kuo.py:209-231 | the result is the size escalation from `|S0|`; on completion the graph holds the found driver set as S0 with every node reached and the out-edges of every node outside S0 removed; otherwise S0 is the only level and the only reached nodes and the edges are as on entry |
| NewKuo.AllOutEdgesRemoved | kuos_algorithm/new_kuo.py:206 | once the out-edges of S0 and then of every other node are removed, no edge is left |
| NewKuo.KuosAlgorithm | kuos_algorithm/new_kuo.py:194-231 | the result is the size escalation over the graph left once S0's out-edges are removed; on completion the graph holds the found driver set as S0 with every node reached and no edge left; on a timeout S0 is the only level and the only reached nodes and only S0's out-edges are gone |
| OldKuo.Remove | kuos_algorithm/kuo.py:12-15 | reference definition of `remove_edge`: an absent edge raises with nothing changed; a present edge is removed and pushed |
| OldKuo.Add | kuos_algorithm/kuo.py:18-20 | reference definition of `add_edge`: both endpoints and the edge are added, and the stack stays |
| OldKuo.Restore | kuos_algorithm/kuo.py:23-25 | reference definition of `restore_edge`: an empty stack raises (`list.pop`) with nothing changed; otherwise the last pushed edge is popped and added back |
| OldKuo.RemoveAll | kuos_algorithm/kuo.py:12-15 | `remove_edge` over a list of edges in order, stopping at the first raise |
| OldKuo.RestoreTimes | kuos_algorithm/kuo.py:23-25 | `restore_edge` called `n` times, stopping at the first raise |
| OldKuo.ClosedPreserved | kuos_algorithm/kuo.py:12-25 | removing, adding and restoring edges keep every present or stacked edge between known nodes |
| OldKuo.RestoreUndoesRemove | kuos_algorithm/kuo.py:12-25 | removing a present edge succeeds, and one restore then gives back the same nodes, edges and stack |
| OldKuo.RestoreTimesSplit | kuos_algorithm/kuo.py:23-25 | `a + b` restores are `a` restores followed, when none raised, by `b` more |
| OldKuo.RemovalsUndone | kuos_algorithm/kuo.py:12-25 | removing distinct present edges one by one never raises, and as many restores return the nodes, edges and stack to their start (last in, first out) |
| OldKuo.SGraph.constructor | kuos_algorithm/kuo.py:5-9 | the graph holds the listed edges and their endpoints, with an empty stack |
| OldKuo.SGraph.RemoveEdge | kuos_algorithm/kuo.py:12-15 | a present edge is removed and pushed; an absent edge raises with nothing changed |
| OldKuo.SGraph.AddEdge | kuos_algorithm/kuo.py:18-20 | both endpoints and the edge are added, and the stack is unchanged |
| OldKuo.SGraph.RestoreEdge | kuos_algorithm/kuo.py:23-25 | the last pushed edge is popped and added back; an empty stack raises (`list.pop`) with nothing changed |

## Left out

- `get_graph_from_file` in both files, the `__main__` blocks and every debug `print`. They
  are file and console I/O. The constructors take the parsed edge list instead. The
  loader's dropping of self-loops is not modelled.
- `time.time()` and the 300-second budget. They are replaced by the oracle
  `expired: int -> bool`, queried once before each size as the source does.
- networkx and `heapq` internals. A graph is a fixed node set plus an edge set. `nlargest`
  is specified by what it returns: the `n` largest keys, largest first.
- The `debug_mode` and `level` parameters. They only affect printing.
- The `timeout_seconds` value. It only feeds the clock comparison.
- kuo.py's `kuos_algorithm`. It is an empty stub.
- NewKuoGraph.SGraph.RemoveNodeSuccessors requires its nodes to be nodes of the graph.
  networkx raises on an unknown node, and no caller passes one.
- NewKuo.RunCombination requires `sets` to be nonempty. `graph.sets[0]` raises
  `IndexError` otherwise, and `kuos_algorithm` always sets it first.
- Node identifiers are strings compared in Python's code-point order, and scores are
  integers. The source's scores are integral although annotated `float`.
- Minimality. The model proves that the size returned is the first size from `|S0|` at
  which the heuristic search succeeds. It does not prove that no smaller driver set
  exists: the search tries only `k_remaining + 10` ranked candidates per level, so it is
  not exhaustive.
- Aliasing of the sets. Python appends the very set object `s_i` to `sets`, and
  `graph.sets = [s_0]` (new_kuo.py:202) makes `sets[0]` the object `s_0` itself, while
  `reachable` gets a copy (new_kuo.py:203). `run_combination` then mutates `s_0` through
  `sets[0]`. `kuos_algorithm` uses `s_0` itself only before any such mutation: for its
  size (new_kuo.py:200) and for `remove_node_successors(s_0)` (new_kuo.py:206). It returns
  `graph.sets[0]`, which the model returns too. The model treats sets as values, which
  gives the same results.
- Python's recursion limit. `implication` recurses once per cascade level
  (new_kuo.py:120) and `run_combination` once per added driver (new_kuo.py:179). CPython
  raises `RecursionError` past about 1000 nested calls, which then escapes
  `kuos_algorithm`. The model's recursion has no depth limit. So NewKuo.Implication,
  NewKuo.RunCombination, NewKuo.KuosAlgorithm and SearchSpec.EscalateCompletes describe the
  program only on inputs whose cascades and driver sets stay within that limit.

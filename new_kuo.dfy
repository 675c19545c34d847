/**
 The search of new_kuo.py: `implication` runs the cascade from the current
 search state, `run_combination` grows the driver set S0 to a given size by
 backtracking over ranked candidates, and `kuos_algorithm` tries sizes in
 increasing order. All three mutate one SGraph in place and undo their
 changes when a branch fails; each is proved to agree with the function of
 module SearchSpec that says what it computes.
 */
module NewKuo {
  import opened Digraph
  import opened NewKuoGraph
  import opened Ranking
  import opened SearchSpec

  /** Popping the edge below position `cut` of a stack prefix: it is the
      last edge of the prefix, and the edges from `cut - 1` on are the edges
      from `cut` on plus that one. */
  lemma PopStep(s: seq<Edge>, cut: nat)
    requires 0 < cut <= |s|
    ensures s[..cut][cut - 1] == s[cut - 1] && s[..cut][..cut - 1] == s[..cut - 1]
    ensures Elements(s[cut - 1..]) == Elements(s[cut..]) + {s[cut - 1]}
  {
    assert s[cut - 1..] == [s[cut - 1]] + s[cut..];
  }

  /** The backtracking loop `for _ in range(edge_count): graph.restore_edge()`:
      puts back the last `count` removed edges, or all of them when fewer are
      on the stack, most recent first. */
  method RestoreEdges(g: SGraph, count: nat)
    requires g.Valid()
    modifies g`edges, g`restoreStack, g`inDegreeCache
    ensures g.Valid()
    ensures var n := if count <= |old(g.restoreStack)| then count else |old(g.restoreStack)|;
      var cut := |old(g.restoreStack)| - n;
      && g.restoreStack == old(g.restoreStack)[..cut]
      && g.edges == old(g.edges) + Elements(old(g.restoreStack)[cut..])
  {
    ghost var stack0, edges0 := g.restoreStack, g.edges;
    ghost var cut := |stack0|;
    assert stack0[..cut] == stack0 && stack0[cut..] == [];
    var i := 0;
    while i < count
      invariant 0 <= i <= count
      invariant g.Valid()
      invariant cut == if i <= |stack0| then |stack0| - i else 0
      invariant g.restoreStack == stack0[..cut]
      invariant g.edges == edges0 + Elements(stack0[cut..])
    {
      if cut > 0 {
        PopStep(stack0, cut);
      }
      var restored := g.RestoreEdge();
      if cut > 0 {
        cut := cut - 1;
      }
      i := i + 1;
    }
  }

  /** Removing the out-edges of the nodes of a `RemoveNodeSuccessors` and then
      putting back as many edges as it removed leaves the edges and the stack as
      they were. */
  lemma UndoRemoval(edges0: set<Edge>, stack0: seq<Edge>, edges1: set<Edge>, stack1: seq<Edge>, s: set<Node>, count: nat)
    requires edges1 == edges0 - OutEdges(edges0, s)
    requires |stack1| == |stack0| + count && stack1[..|stack0|] == stack0
    requires Elements(stack1[|stack0|..]) == OutEdges(edges0, s)
    ensures stack1[..|stack1| - count] == stack0
    ensures edges1 + Elements(stack1[|stack1| - count..]) == edges0
  {
  }

  /** Two states that satisfy the cache invariant over the same nodes and edges
      hold the same cache. */
  lemma CacheDetermined(c1: map<Node, int>, c2: map<Node, int>, nodes: set<Node>, edges: set<Edge>)
    requires CacheMatches(c1, nodes, edges) && CacheMatches(c2, nodes, edges)
    ensures c1 == c2
  {
  }

  /** Lines 110-117 of `implication`: appends `s` as a new level, marks its
      nodes reached and removes their out-edges, pushing them on the stack. */
  method EnterLevel(g: SGraph, s: set<Node>) returns (edgeCount: nat)
    requires g.Valid() && s <= g.nodes && s !! g.reachable
    modifies g
    ensures g.Valid()
    ensures g.sets == old(g.sets) + [s] && g.reachable == old(g.reachable) + s
    ensures g.edges == old(g.edges) - OutEdges(old(g.edges), s)
    ensures |g.restoreStack| == |old(g.restoreStack)| + edgeCount
    ensures g.restoreStack[..|old(g.restoreStack)|] == old(g.restoreStack)
    ensures Elements(g.restoreStack[|old(g.restoreStack)|..]) == OutEdges(old(g.edges), s)
  {
    PartitionAppend(g.sets, g.reachable, s);
    g.sets := g.sets + [s];
    g.reachable := g.reachable + s;
    edgeCount := g.RemoveNodeSuccessors(s);
  }

  /** Lines 127-130 of `implication`, the undo of EnterLevel: drops the last
      level `s`, takes its nodes out of the reached set and puts back the
      `edgeCount` edges EnterLevel removed, which gives back the state `before`
      EnterLevel ran in. */
  method LeaveLevel(g: SGraph, s: set<Node>, edgeCount: nat, ghost before: SearchState)
    requires g.Valid() && CacheMatches(before.inDegreeCache, g.nodes, before.edges)
    requires g.sets == before.sets + [s] && g.reachable == before.reachable + s && s !! before.reachable
    requires g.edges == before.edges - OutEdges(before.edges, s)
    requires |g.restoreStack| == |before.restoreStack| + edgeCount
    requires g.restoreStack[..|before.restoreStack|] == before.restoreStack
    requires Elements(g.restoreStack[|before.restoreStack|..]) == OutEdges(before.edges, s)
    modifies g
    ensures g.Valid() && g.State() == before
  {
    UndoRemoval(before.edges, before.restoreStack, g.edges, g.restoreStack, s, edgeCount);
    PartitionDropLast(g.sets, g.reachable);
    g.sets := g.sets[..|g.sets| - 1];
    g.reachable := g.reachable - s;
    RestoreEdges(g, edgeCount);
    assert (before.sets + [s])[..|before.sets|] == before.sets;
    assert (before.reachable + s) - s == before.reachable;
    CacheDetermined(g.inDegreeCache, before.inDegreeCache, g.nodes, g.edges);
  }

  // Small value-level steps kept out of Implication's own proof context.
  lemma AppendAssoc<T>(a: seq<T>, b: seq<T>, c: seq<T>)
    ensures (a + b) + c == a + (b + c)
  {
  }

  lemma OutEdgesAfterLevel(edges: set<Edge>, nodes: set<Node>, reached: set<Node>, s: set<Node>)
    requires s <= nodes - reached
    ensures var edges' := edges - OutEdges(edges, s);
      edges' - OutEdges(edges', nodes - (reached + s)) == edges - OutEdges(edges, nodes - reached)
  {
    OutEdgesTwice(edges, s, nodes - (reached + s));
    assert s + (nodes - (reached + s)) == nodes - reached;
  }

  lemma PrefixTrans(a: seq<Edge>, b: seq<Edge>, c: seq<Edge>)
    requires |a| <= |b| <= |c| && b[..|a|] == a && c[..|b|] == b
    ensures c[..|a|] == a
  {
    assert c[..|b|][..|a|] == c[..|a|];
  }

  /** `implication`: while some node is unreached, appends the unreached nodes
      no edge enters as a new level, marks them reached and removes their
      out-edges, then recurses. It succeeds exactly when the cascade of the
      entry state does; it then leaves the cascade's levels appended to `sets`,
      every node reached and the out-edges of all newly reached nodes removed.
      On failure every change is undone. */
  method Implication(g: SGraph) returns (success: bool)
    requires g.Valid()
    modifies g
    ensures g.Valid()
    ensures success == Cascade(g.nodes, old(g.edges), old(g.reachable)).Some?
    ensures success ==>
      && g.sets == old(g.sets) + Cascade(g.nodes, old(g.edges), old(g.reachable)).value
      && g.reachable == g.nodes
      && g.edges == old(g.edges) - OutEdges(old(g.edges), g.nodes - old(g.reachable))
      && |old(g.restoreStack)| <= |g.restoreStack| && g.restoreStack[..|old(g.restoreStack)|] == old(g.restoreStack)
    ensures !success ==> g.State() == old(g.State())
    decreases g.nodes - g.reachable
  {
    AllReachedBySize(g.nodes, g.reachable);
    if |g.reachable| == |g.nodes| {
      CascadeDone(g.nodes, g.edges, g.reachable);
      assert OutEdges(g.edges, g.nodes - g.reachable) == {};
      assert g.sets + [] == g.sets;
      return true;
    }
    var s := g.GetZeroIndegreeNodes(true);
    assert s == Frontier(g.nodes, g.edges, g.reachable);
    if s == {} {
      CascadeStuck(g.nodes, g.edges, g.reachable);
      return false;
    }
    ghost var before := g.State();
    CascadeAdvances(g.nodes, g.edges, g.reachable, s);
    var edgeCount := EnterLevel(g, s);
    ghost var stack1, edges1, reached1 := g.restoreStack, g.edges, g.reachable;
    success := Implication(g);
    if success {
      ghost var next := Cascade(g.nodes, edges1, reached1).value;
      assert g.sets == (before.sets + [s]) + next;
      AppendAssoc(before.sets, [s], next);
      OutEdgesAfterLevel(before.edges, g.nodes, before.reachable, s);
      PrefixTrans(before.restoreStack, stack1, g.restoreStack);
      return true;
    }
    LeaveLevel(g, s, edgeCount, before);
    return false;
  }

  /** Lines 172-177 of `run_combination`: adds `node` to S0, marks it reached
      and removes its out-edges, pushing them on the stack. */
  method AddDriver(g: SGraph, node: Node) returns (edgeCount: nat)
    requires g.Valid() && g.sets != [] && node in g.nodes && node !in g.reachable
    modifies g
    ensures g.Valid()
    ensures g.sets == old(g.sets)[0 := old(g.sets[0]) + {node}] && g.reachable == old(g.reachable) + {node}
    ensures g.edges == old(g.edges) - OutEdges(old(g.edges), {node})
    ensures |g.restoreStack| == |old(g.restoreStack)| + edgeCount
    ensures g.restoreStack[..|old(g.restoreStack)|] == old(g.restoreStack)
    ensures Elements(g.restoreStack[|old(g.restoreStack)|..]) == OutEdges(old(g.edges), {node})
  {
    PartitionAddFirst(g.sets, g.reachable, node);
    g.sets := g.sets[0 := g.sets[0] + {node}];
    g.reachable := g.reachable + {node};
    edgeCount := g.RemoveNodeSuccessors({node});
  }

  /** Adding a node to the first level and taking it out again gives back the
      levels, when the node was not in the first level. */
  lemma UndoAddFirst(sets: seq<set<Node>>, node: Node)
    requires sets != [] && node !in sets[0]
    ensures var added := sets[0 := sets[0] + {node}];
      added[0 := added[0] - {node}] == sets
  {
    assert (sets[0] + {node}) - {node} == sets[0];
  }

  /** Lines 186-187 of `run_combination`: takes `node` out of S0 and out of
      the reached set, which gives back the levels and the reached set it was
      added to. */
  method UnmarkDriver(g: SGraph, node: Node, ghost sets0: seq<set<Node>>, ghost reachable0: set<Node>)
    requires g.Valid() && sets0 != [] && node !in sets0[0] && node !in reachable0
    requires g.sets == sets0[0 := sets0[0] + {node}] && g.reachable == reachable0 + {node}
    modifies g`sets, g`reachable
    ensures g.Valid()
    ensures g.sets == sets0 && g.reachable == reachable0
  {
    PartitionRemoveFirst(g.sets, g.reachable, node);
    UndoAddFirst(sets0, node);
    assert (reachable0 + {node}) - {node} == reachable0;
    g.sets := g.sets[0 := g.sets[0] - {node}];
    g.reachable := g.reachable - {node};
  }

  /** Lines 186-190 of `run_combination`, the undo of AddDriver: takes `node`
      out of S0 and of the reached set and puts back the `edgeCount` edges
      AddDriver removed, which gives back the state `before` AddDriver ran in. */
  method RemoveDriver(g: SGraph, node: Node, edgeCount: nat, ghost before: SearchState)
    requires g.Valid() && CacheMatches(before.inDegreeCache, g.nodes, before.edges)
    requires before.sets != [] && node !in before.sets[0] && node !in before.reachable
    requires g.sets == before.sets[0 := before.sets[0] + {node}] && g.reachable == before.reachable + {node}
    requires g.edges == before.edges - OutEdges(before.edges, {node})
    requires |g.restoreStack| == |before.restoreStack| + edgeCount
    requires g.restoreStack[..|before.restoreStack|] == before.restoreStack
    requires Elements(g.restoreStack[|before.restoreStack|..]) == OutEdges(before.edges, {node})
    modifies g
    ensures g.Valid() && g.State() == before
  {
    ghost var edges1, stack1 := g.edges, g.restoreStack;
    ghost var cut := |stack1| - edgeCount;
    UndoRemoval(before.edges, before.restoreStack, edges1, stack1, {node}, edgeCount);
    UnmarkDriver(g, node, before.sets, before.reachable);
    RestoreEdges(g, edgeCount);
    assert g.restoreStack == stack1[..cut] == before.restoreStack;
    assert g.edges == edges1 + Elements(stack1[cut..]) == before.edges;
    CacheDetermined(g.inDegreeCache, before.inDegreeCache, g.nodes, g.edges);
  }

  /** `run_combination(k)`: with S0 = `sets[0]` already of size `k` or more it
      is `implication`; otherwise it tries the ranked candidates in order, adding
      each to S0, marking it reached, removing its out-edges and recursing, and
      undoing all of that when the branch fails. It succeeds exactly when the
      search of the entry state does, and then leaves as S0 the driver set the
      search finds, every node reached and the out-edges of all newly reached
      nodes removed. On failure every change is undone. */
  method RunCombination(g: SGraph, k: int) returns (success: bool)
    requires g.Valid() && g.sets != []
    modifies g
    ensures g.Valid()
    ensures success == Search(g.nodes, old(g.edges), old(g.reachable), old(g.sets[0]), k).Some?
    ensures success ==>
      && g.sets != []
      && g.sets[0] == Search(g.nodes, old(g.edges), old(g.reachable), old(g.sets[0]), k).value
      && g.reachable == g.nodes
      && g.edges == old(g.edges) - OutEdges(old(g.edges), g.nodes - old(g.reachable))
    ensures !success ==> g.State() == old(g.State())
    decreases k - |g.sets[0]|
  {
    var s0 := g.sets[0];
    assert s0 <= g.reachable;
    if |s0| >= k {
      success := Implication(g);
      return;
    }
    var candidates := FindCandidates(g.nodes, g.edges, g.reachable, k - |s0|);
    SearchEntersCandidates(g.nodes, g.edges, g.reachable, s0, k);
    ghost var before := g.State();
    ghost var result := TryCandidates(g.nodes, g.edges, g.reachable, s0, k, candidates, 0);
    var i := 0;
    while i < |candidates|
      invariant 0 <= i <= |candidates|
      invariant g.Valid() && g.State() == before
      invariant result == TryCandidates(g.nodes, before.edges, before.reachable, s0, k, candidates, i)
    {
      var node := candidates[i];
      if node in g.reachable {
        // the candidates were drawn from the unreached nodes and every failed
        // branch restores `reachable`, so this skip is never taken
        assert false;
      }
      var edgeCount := AddDriver(g, node);
      assert |s0 + {node}| == |s0| + 1;
      success := RunCombination(g, k);
      if success {
        TryCandidateStep(g.nodes, before.edges, before.reachable, s0, k, candidates, i);
        OutEdgesAfterLevel(before.edges, g.nodes, before.reachable, {node});
        return true;
      }
      RemoveDriver(g, node, edgeCount, before);
      TryCandidateSkip(g.nodes, before.edges, before.reachable, s0, k, candidates, i);
      i := i + 1;
    }
    return false;
  }

  /** Lines 197-205 of `kuos_algorithm`: takes the unreached nodes no edge
      enters as S0, makes S0 the only level and the reached set, and removes
      the out-edges of S0's nodes. */
  method StartDriverSet(g: SGraph) returns (s0: set<Node>)
    requires g.Valid()
    modifies g
    ensures g.Valid()
    ensures s0 == Frontier(g.nodes, old(g.edges), old(g.reachable))
    ensures g.sets == [s0] && g.reachable == s0
    ensures g.edges == old(g.edges) - OutEdges(old(g.edges), s0)
  {
    s0 := g.GetZeroIndegreeNodes(true);
    assert s0 == Frontier(g.nodes, g.edges, g.reachable);
    ghost var edges0 := g.edges;
    PartitionAppend([], {}, s0);
    g.sets := [s0];
    g.reachable := s0;
    var removed := g.RemoveNodeSuccessors(s0);
    assert g.edges == edges0 - OutEdges(edges0, s0);
  }

  /** Lines 207-226 of `kuos_algorithm`: with S0 the only level and the
      reached set, runs `run_combination` at sizes `|S0|`, `|S0| + 1`, ...,
      `|nodes|`, checking the clock before each size; `expired(k)` stands for
      the clock check made before size `k`. The result is the size escalation
      of module SearchSpec, and on completion the graph holds the driver set
      found as S0 with every node reached. */
  method EscalateSizes(g: SGraph, s0: set<Node>, expired: int -> bool) returns (driverSet: set<Node>, completed: bool)
    requires g.Valid() && g.sets == [s0] && g.reachable == s0
    modifies g
    ensures g.Valid()
    ensures (driverSet, completed) == Escalate(g.nodes, old(g.edges), s0, |s0|, expired)
    ensures completed ==>
      && g.sets != [] && g.sets[0] == driverSet && g.reachable == g.nodes
      && g.edges == old(g.edges) - OutEdges(old(g.edges), g.nodes - s0)
    ensures !completed ==> g.sets == [s0] && g.reachable == s0 && g.edges == old(g.edges)
  {
    ghost var edges0 := g.edges;
    assert s0 <= g.nodes;
    var k := |s0|;
    while k <= |g.nodes|
      invariant g.Valid()
      invariant g.sets == [s0] && g.reachable == s0 && g.edges == edges0
      invariant |s0| <= k && PassedSizes(g.nodes, edges0, s0, |s0|, k, expired)
      decreases |g.nodes| + 1 - k
    {
      if expired(k) {
        EscalateResumes(g.nodes, edges0, s0, |s0|, k, expired);
        EscalateStep(g.nodes, edges0, s0, k, expired);
        return g.sets[0], false;
      }
      var success := RunCombination(g, k);
      if success {
        EscalateResumes(g.nodes, edges0, s0, |s0|, k, expired);
        EscalateStep(g.nodes, edges0, s0, k, expired);
        return g.sets[0], true;
      }
      PassedSizesSnoc(g.nodes, edges0, s0, |s0|, k, expired);
      k := k + 1;
    }
    EscalateResumes(g.nodes, edges0, s0, |s0|, k, expired);
    return {}, false;
  }

  /** Once the out-edges of `s0` and then of every other node are gone, no
      edge between known nodes is left. */
  lemma AllOutEdgesRemoved(edges: set<Edge>, nodes: set<Node>, s0: set<Node>)
    requires forall e :: e in edges ==> e.0 in nodes
    ensures var rest := edges - OutEdges(edges, s0);
      rest - OutEdges(rest, nodes - s0) == {}
  {
    var rest := edges - OutEdges(edges, s0);
    forall e | e in rest
      ensures e in OutEdges(rest, nodes - s0)
    {
    }
  }

  /** `kuos_algorithm`: takes the unreached nodes no edge enters as S0, makes
      them the only level and the only reached nodes, removes their out-edges
      and escalates the size of the driver set from `|S0|`. The result is the
      size escalation of module SearchSpec on the graph left after S0's
      out-edges are removed, and on completion the graph holds the found
      driver set as S0 with every node reached. */
  method KuosAlgorithm(g: SGraph, expired: int -> bool) returns (driverSet: set<Node>, completed: bool)
    requires g.Valid()
    modifies g
    ensures g.Valid()
    ensures var s0 := Frontier(g.nodes, old(g.edges), old(g.reachable));
      (driverSet, completed) == Escalate(g.nodes, old(g.edges) - OutEdges(old(g.edges), s0), s0, |s0|, expired)
    ensures completed ==> g.sets != [] && g.sets[0] == driverSet && g.reachable == g.nodes && g.edges == {}
    ensures var s0 := Frontier(g.nodes, old(g.edges), old(g.reachable));
      !completed ==> g.sets == [s0] && g.reachable == s0 && g.edges == old(g.edges) - OutEdges(old(g.edges), s0)
  {
    var s0 := StartDriverSet(g);
    ghost var edges0 := g.edges;
    driverSet, completed := EscalateSizes(g, s0, expired);
    if completed {
      AllOutEdgesRemoved(edges0, g.nodes, s0);
    }
  }
}

/**
 The searchable graph of new_kuo.py: a directed graph whose edges are removed
 and put back in place while the search explores, with
 - an in-degree cache kept in step with every removal and restoration,
 - a last-in-first-out stack of the edges removed so far,
 - the search state: the levels `sets` (`sets[0]` is the driver set S0) and
   the set `reachable` of nodes reached so far.
 */
module NewKuoGraph {
  import opened Digraph

  /** The edges a stack of removed edges holds. */
  function Elements(s: seq<Edge>): set<Edge>
  {
    set e | e in s
  }

  ghost predicate NoDuplicates(s: seq<Edge>)
  {
    forall i, j :: 0 <= i < j < |s| ==> s[i] != s[j]
  }

  /** `sets` partitions `reachable`: every level lies inside it, every reached
      node lies in some level, and no node lies in two levels. */
  ghost predicate Partition(sets: seq<set<Node>>, reachable: set<Node>)
  {
    && (forall i :: 0 <= i < |sets| ==> sets[i] <= reachable)
    && (forall v :: v in reachable ==> exists i :: 0 <= i < |sets| && v in sets[i])
    && (forall i, j :: 0 <= i < j < |sets| ==> sets[i] !! sets[j])
  }

  /** A new level of nodes not yet reached extends the partition. */
  lemma PartitionAppend(sets: seq<set<Node>>, reachable: set<Node>, s: set<Node>)
    requires Partition(sets, reachable) && s !! reachable
    ensures Partition(sets + [s], reachable + s)
  {
    var sets' := sets + [s];
    forall v | v in reachable + s
      ensures exists i :: 0 <= i < |sets'| && v in sets'[i]
    {
      if v in s {
        assert v in sets'[|sets|];
      } else {
        var i :| 0 <= i < |sets| && v in sets[i];
        assert v in sets'[i];
      }
    }
  }

  /** A node not yet reached, added to the first level, extends the partition. */
  lemma PartitionAddFirst(sets: seq<set<Node>>, reachable: set<Node>, v: Node)
    requires Partition(sets, reachable) && sets != [] && v !in reachable
    ensures Partition(sets[0 := sets[0] + {v}], reachable + {v})
  {
    var sets' := sets[0 := sets[0] + {v}];
    forall w | w in reachable + {v}
      ensures exists i :: 0 <= i < |sets'| && w in sets'[i]
    {
      if w == v {
        assert w in sets'[0];
      } else {
        var i :| 0 <= i < |sets| && w in sets[i];
        assert w in sets'[i];
      }
    }
  }

  /** Dropping the last level and its nodes keeps the partition. */
  lemma PartitionDropLast(sets: seq<set<Node>>, reachable: set<Node>)
    requires Partition(sets, reachable) && sets != []
    ensures Partition(sets[..|sets| - 1], reachable - sets[|sets| - 1])
  {
    var sets', last := sets[..|sets| - 1], sets[|sets| - 1];
    forall v | v in reachable - last
      ensures exists i :: 0 <= i < |sets'| && v in sets'[i]
    {
      var i :| 0 <= i < |sets| && v in sets[i];
      assert v in sets'[i];
    }
  }

  /** Taking a node of the first level out of it and out of the reached set
      keeps the partition. */
  lemma PartitionRemoveFirst(sets: seq<set<Node>>, reachable: set<Node>, v: Node)
    requires Partition(sets, reachable) && sets != [] && v in sets[0]
    ensures Partition(sets[0 := sets[0] - {v}], reachable - {v})
  {
    var sets' := sets[0 := sets[0] - {v}];
    forall w | w in reachable - {v}
      ensures exists i :: 0 <= i < |sets'| && w in sets'[i]
    {
      var i :| 0 <= i < |sets| && w in sets[i];
      assert w in sets'[i];
    }
  }

  lemma {:induction false} NoDuplicatesCard(s: seq<Edge>)
    requires NoDuplicates(s)
    ensures |Elements(s)| == |s|
  {
    if s != [] {
      var t := s[..|s| - 1];
      assert NoDuplicates(t);
      NoDuplicatesCard(t);
      assert Elements(s) == Elements(t) + {s[|s| - 1]};
      assert s[|s| - 1] !in Elements(t);
    }
  }

  lemma PrefixStep(s: seq<Edge>, i: nat)
    requires i < |s| && NoDuplicates(s)
    ensures s[..i + 1] == s[..i] + [s[i]]
    ensures Elements(s[..i + 1]) == Elements(s[..i]) + {s[i]}
    ensures s[i] in Elements(s) && s[i] !in Elements(s[..i])
  {
    assert s[..i + 1] == s[..i] + [s[i]];
  }

  /** `cache` holds, for every node, the number of `edges` entering it. */
  ghost predicate CacheMatches(cache: map<Node, int>, nodes: set<Node>, edges: set<Edge>)
  {
    cache.Keys == nodes && forall v :: v in nodes ==> cache[v] == InDegree(edges, v)
  }

  lemma CacheAfterRemove(cache: map<Node, int>, nodes: set<Node>, edges: set<Edge>, u: Node, v: Node)
    requires CacheMatches(cache, nodes, edges) && (u, v) in edges && v in nodes
    ensures CacheMatches(cache[v := cache[v] - 1], nodes, edges - {(u, v)})
  {
    forall w | w in nodes
      ensures cache[v := cache[v] - 1][w] == InDegree(edges - {(u, v)}, w)
    {
      InDegreeAfterRemove(edges, u, v, w);
    }
  }

  lemma CacheAfterAdd(cache: map<Node, int>, nodes: set<Node>, edges: set<Edge>, u: Node, v: Node)
    requires CacheMatches(cache, nodes, edges) && (u, v) !in edges && v in nodes
    ensures CacheMatches(cache[v := cache[v] + 1], nodes, edges + {(u, v)})
  {
    forall w | w in nodes
      ensures cache[v := cache[v] + 1][w] == InDegree(edges + {(u, v)}, w)
    {
      InDegreeAfterAdd(edges, u, v, w);
    }
  }

  /** One turn of removing the listed edges in order: the next listed edge is
      still present, and removing and pushing it extends the removed prefix. */
  lemma ListedStep(edges0: set<Edge>, stack0: seq<Edge>, list: seq<Edge>, i: nat)
    requires i < |list| && NoDuplicates(list) && Elements(list) <= edges0
    ensures list[i] in edges0 - Elements(list[..i])
    ensures (edges0 - Elements(list[..i])) - {list[i]} == edges0 - Elements(list[..i + 1])
    ensures (stack0 + list[..i]) + [list[i]] == stack0 + list[..i + 1]
  {
    PrefixStep(list, i);
  }

  /** Every edge of `original` is either in `edges` or on `stack`, never both,
      and `stack` holds no edge twice. */
  ghost predicate Accounted(original: set<Edge>, edges: set<Edge>, stack: seq<Edge>)
  {
    && edges !! Elements(stack)
    && edges + Elements(stack) == original
    && NoDuplicates(stack)
  }

  lemma AccountedPush(original: set<Edge>, edges: set<Edge>, stack: seq<Edge>, e: Edge)
    requires Accounted(original, edges, stack) && e in edges
    ensures Accounted(original, edges - {e}, stack + [e])
  {
    assert Elements(stack + [e]) == Elements(stack) + {e};
  }

  lemma AccountedPop(original: set<Edge>, edges: set<Edge>, stack: seq<Edge>)
    requires Accounted(original, edges, stack) && stack != []
    ensures var e, rest := stack[|stack| - 1], stack[..|stack| - 1];
      e in original && e !in edges && Accounted(original, edges + {e}, rest)
  {
    var e, rest := stack[|stack| - 1], stack[..|stack| - 1];
    assert stack == rest + [e];
    assert Elements(stack) == Elements(rest) + {e};
    assert e !in Elements(rest);
  }

  /** The mutable part of an SGraph at one moment: what a failed search
      branch must give back. */
  datatype SearchState = SearchState(
    edges: set<Edge>, sets: seq<set<Node>>, reachable: set<Node>,
    restoreStack: seq<Edge>, inDegreeCache: map<Node, int>)

  class SGraph {
    /** The node set never changes: every edge put back joins two known nodes. */
    const nodes: set<Node>
    /** The edges the graph was built with. */
    ghost const original: set<Edge>

    var edges: set<Edge>
    var sets: seq<set<Node>>
    var reachable: set<Node>
    var restoreStack: seq<Edge>
    var inDegreeCache: map<Node, int>

    /** The cache holds, for every node, the number of present edges entering it. */
    ghost predicate CacheExact()
      reads this
    {
      CacheMatches(inDegreeCache, nodes, edges)
    }

    /** Every edge ever in the graph joins two known nodes and is either present
        or on the restore stack, never both; the stack holds no edge twice. */
    ghost predicate EdgesAccounted()
      reads this
    {
      && (forall e :: e in original ==> e.0 in nodes && e.1 in nodes)
      && Accounted(original, edges, restoreStack)
    }

    ghost function State(): SearchState
      reads this
    {
      SearchState(edges, sets, reachable, restoreStack, inDegreeCache)
    }

    ghost predicate Valid()
      reads this
    {
      && CacheExact()
      && EdgesAccounted()
      && reachable <= nodes
      && Partition(sets, reachable)
    }

    /** `SGraph(iterable)`: a networkx graph built from a list of edges, with an
        empty search state and a freshly computed cache. */
    constructor (edgeList: seq<Edge>)
      ensures Valid()
      ensures edges == (set e | e in edgeList) && nodes == Endpoints(edges)
      ensures sets == [] && reachable == {} && restoreStack == []
    {
      var es := set e | e in edgeList;
      nodes := Endpoints(es);
      original := es;
      edges := es;
      sets := [];
      reachable := {};
      restoreStack := [];
      inDegreeCache := map[];
      new;
      RefreshDegreeCache();
    }

    /** Recomputes the cache from the live in-degrees of all nodes. */
    method RefreshDegreeCache()
      modifies this`inDegreeCache
      ensures CacheExact()
    {
      inDegreeCache := map v | v in nodes :: InDegree(edges, v);
    }

    /** The nodes whose cached in-degree is 0, less the reached ones when asked;
        under the cache invariant these are the nodes no present edge enters. */
    function GetZeroIndegreeNodes(excludeReachable: bool): (r: set<Node>)
      reads this
      requires Valid()
      ensures forall v :: v in r <==>
        v in nodes && Predecessors(edges, v) == {} && !(excludeReachable && v in reachable)
    {
      var zero := set v | v in inDegreeCache && inDegreeCache[v] == 0;
      if excludeReachable then zero - reachable else zero
    }

    /** Removes a present edge, pushes it and lowers its target's cached in-degree;
        networkx raises, before anything changes, when the edge is absent. */
    method RemoveEdge(u: Node, v: Node) returns (out: Outcome)
      requires Valid()
      modifies this`edges, this`restoreStack, this`inDegreeCache
      ensures Valid()
      ensures out == if (u, v) in old(edges) then Ok else Raise(EdgeNotInGraph(u, v))
      ensures out.Ok? ==>
        && edges == old(edges) - {(u, v)}
        && restoreStack == old(restoreStack) + [(u, v)]
        && inDegreeCache == old(inDegreeCache)[v := old(inDegreeCache)[v] - 1]
      ensures out.Raise? ==>
        edges == old(edges) && restoreStack == old(restoreStack) && inDegreeCache == old(inDegreeCache)
    {
      if (u, v) !in edges {
        return Raise(EdgeNotInGraph(u, v));
      }
      assert (u, v) in original && v in nodes;
      CacheAfterRemove(inDegreeCache, nodes, edges, u, v);
      AccountedPush(original, edges, restoreStack, (u, v));
      edges := edges - {(u, v)};
      restoreStack := restoreStack + [(u, v)];
      inDegreeCache := inDegreeCache[v := inDegreeCache[v] - 1];
      assert CacheExact() && EdgesAccounted() && Partition(sets, reachable);
      return Ok;
    }

    /** Pops the most recently removed edge and puts it back, raising its target's
        cached in-degree; with nothing on the stack it does nothing and gives None. */
    method RestoreEdge() returns (r: Option<Edge>)
      requires Valid()
      modifies this`edges, this`restoreStack, this`inDegreeCache
      ensures Valid()
      ensures old(restoreStack) == [] ==>
        r == None && edges == old(edges) && restoreStack == [] && inDegreeCache == old(inDegreeCache)
      ensures old(restoreStack) != [] ==>
        var last := old(restoreStack)[|old(restoreStack)| - 1];
        && r == Some(last)
        && restoreStack == old(restoreStack)[..|old(restoreStack)| - 1]
        && edges == old(edges) + {last}
        && last !in old(edges)
        && inDegreeCache == old(inDegreeCache)[last.1 := old(inDegreeCache)[last.1] + 1]
    {
      if restoreStack == [] {
        return None;
      }
      var e := restoreStack[|restoreStack| - 1];
      var (u, v) := e;
      AccountedPop(original, edges, restoreStack);
      CacheAfterAdd(inDegreeCache, nodes, edges, u, v);
      restoreStack := restoreStack[..|restoreStack| - 1];
      edges := edges + {e};
      inDegreeCache := inDegreeCache[v := inDegreeCache[v] + 1];
      return Some(e);
    }

    /** The first loop of `remove_node_successors`: lists the out-edges of the
        nodes of `s`, node by node and successor by successor, each once. */
    method ListOutEdges(s: set<Node>) returns (successorList: seq<Edge>)
      ensures Elements(successorList) == OutEdges(edges, s)
      ensures NoDuplicates(successorList)
    {
      successorList := [];
      var rest := s;
      while rest != {}
        invariant rest <= s
        invariant Elements(successorList) == OutEdges(edges, s - rest)
        invariant NoDuplicates(successorList)
        decreases rest
      {
        var u :| u in rest;
        var targets := Successors(edges, u);
        while targets != {}
          invariant targets <= Successors(edges, u)
          invariant Elements(successorList) ==
            OutEdges(edges, s - rest) + (set e | e in edges && e.0 == u && e.1 !in targets)
          invariant NoDuplicates(successorList)
          decreases targets
        {
          var v :| v in targets;
          assert (u, v) !in Elements(successorList);
          successorList := successorList + [(u, v)];
          targets := targets - {v};
        }
        rest := rest - {u};
      }
    }

    /** The second loop of `remove_node_successors`: removes and pushes the
        listed edges in order. */
    method RemoveListedEdges(successorList: seq<Edge>)
      requires Valid()
      requires NoDuplicates(successorList) && Elements(successorList) <= edges
      modifies this`edges, this`restoreStack, this`inDegreeCache
      ensures Valid()
      ensures edges == old(edges) - Elements(successorList)
      ensures restoreStack == old(restoreStack) + successorList
    {
      ghost var edges0, stack0 := edges, restoreStack;
      assert successorList[..0] == [];
      var i := 0;
      while i < |successorList|
        invariant 0 <= i <= |successorList|
        invariant Valid()
        invariant edges == edges0 - Elements(successorList[..i])
        invariant restoreStack == stack0 + successorList[..i]
      {
        var e := successorList[i];
        ListedStep(edges0, stack0, successorList, i);
        var outcome := RemoveEdge(e.0, e.1);
        i := i + 1;
      }
      assert successorList[..i] == successorList;
    }

    /** `remove_node_successors`: removes and pushes the out-edges of the nodes
        of `s` and gives their number. Afterwards no node of `s` has a successor,
        and the stack ends with exactly the removed edges. */
    method RemoveNodeSuccessors(s: set<Node>) returns (count: nat)
      requires Valid()
      requires s <= nodes
      modifies this`edges, this`restoreStack, this`inDegreeCache
      ensures Valid()
      ensures edges == old(edges) - OutEdges(old(edges), s)
      ensures forall u :: u in s ==> Successors(edges, u) == {}
      ensures count == |OutEdges(old(edges), s)|
      ensures |restoreStack| == |old(restoreStack)| + count
      ensures restoreStack[..|old(restoreStack)|] == old(restoreStack)
      ensures Elements(restoreStack[|old(restoreStack)|..]) == OutEdges(old(edges), s)
    {
      var successorList := ListOutEdges(s);
      NoDuplicatesCard(successorList);
      RemoveListedEdges(successorList);
      assert restoreStack[|old(restoreStack)|..] == successorList;
      count := |successorList|;
    }
  }

}

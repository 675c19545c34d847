/**
 The earlier SGraph of kuo.py: a networkx graph with only the edge undo stack,
 no degree cache and no search state. Its operations are given first on
 snapshots of the graph, so that sequences of them can be reasoned about, and
 then as the methods of a class whose fields they update in place.
 */
module OldKuo {
  import opened Digraph
  import opened NewKuoGraph

  /** The node set, the present edges and the restore stack at one moment. */
  datatype Graph = Graph(nodes: set<Node>, edges: set<Edge>, stack: seq<Edge>)

  /** Every present or stacked edge joins two nodes of the graph. */
  ghost predicate Closed(g: Graph)
  {
    && (forall e :: e in g.edges ==> e.0 in g.nodes && e.1 in g.nodes)
    && (forall i :: 0 <= i < |g.stack| ==> g.stack[i].0 in g.nodes && g.stack[i].1 in g.nodes)
  }

  /** `remove_edge`: networkx raises, before anything changes, on an absent
      edge; otherwise the edge goes and is pushed. */
  function Remove(g: Graph, u: Node, v: Node): (Outcome, Graph)
  {
    if (u, v) !in g.edges then (Raise(EdgeNotInGraph(u, v)), g)
    else (Ok, g.(edges := g.edges - {(u, v)}, stack := g.stack + [(u, v)]))
  }

  /** `add_edge`: networkx adds both endpoints and the edge; the stack stays. */
  function Add(g: Graph, u: Node, v: Node): Graph
  {
    g.(nodes := g.nodes + {u, v}, edges := g.edges + {(u, v)})
  }

  /** `restore_edge`: `list.pop` raises on an empty stack; otherwise the last
      pushed edge is popped and added back. */
  function Restore(g: Graph): (Outcome, Graph)
  {
    if g.stack == [] then (Raise(PopFromEmptyList), g)
    else
      var e := g.stack[|g.stack| - 1];
      (Ok, Add(g.(stack := g.stack[..|g.stack| - 1]), e.0, e.1))
  }

  /** The listed edges removed one after another, stopping at the first raise. */
  function RemoveAll(g: Graph, list: seq<Edge>): (Outcome, Graph)
    decreases |list|
  {
    if list == [] then (Ok, g)
    else
      var (out, h) := Remove(g, list[0].0, list[0].1);
      if out.Raise? then (out, h) else RemoveAll(h, list[1..])
  }

  /** `restore_edge` called `n` times, stopping at the first raise. */
  function RestoreTimes(g: Graph, n: nat): (Outcome, Graph)
    decreases n
  {
    if n == 0 then (Ok, g)
    else
      var (out, h) := Restore(g);
      if out.Raise? then (out, h) else RestoreTimes(h, n - 1)
  }

  /** Each operation keeps every edge between known nodes. */
  lemma ClosedPreserved(g: Graph, u: Node, v: Node)
    requires Closed(g)
    ensures Closed(Remove(g, u, v).1)
    ensures Closed(Restore(g).1)
    ensures Closed(Add(g, u, v))
  {
    var (out, h) := Remove(g, u, v);
    if out.Ok? {
      forall i | 0 <= i < |h.stack|
        ensures h.stack[i].0 in h.nodes && h.stack[i].1 in h.nodes
      {
        if i == |g.stack| { assert h.stack[i] == (u, v); }
        else { assert h.stack[i] == g.stack[i]; }
      }
    }
  }

  /** Removing a present edge and restoring once gives back the same graph:
      the edge, the stack and (its endpoints being known) the node set. */
  lemma RestoreUndoesRemove(g: Graph, u: Node, v: Node)
    requires Closed(g) && (u, v) in g.edges
    ensures Remove(g, u, v).0 == Ok
    ensures Restore(Remove(g, u, v).1) == (Ok, g)
  {
    var h := Remove(g, u, v).1;
    assert h.stack[..|h.stack| - 1] == g.stack;
    assert h.edges + {(u, v)} == g.edges;
    assert g.nodes + {u, v} == g.nodes;
  }

  /** `a + b` restores are `a` restores followed, when they succeeded, by `b`. */
  lemma {:induction false} RestoreTimesSplit(g: Graph, a: nat, b: nat)
    ensures var (out, h) := RestoreTimes(g, a);
      RestoreTimes(g, a + b) == if out.Raise? then (out, h) else RestoreTimes(h, b)
    decreases a
  {
    if a != 0 {
      var (out, h) := Restore(g);
      if out.Ok? {
        RestoreTimesSplit(h, a - 1, b);
        assert a + b - 1 == (a - 1) + b;
      }
    }
  }

  /** Removing distinct present edges one by one never raises, and restoring as
      many times as there were edges returns the graph, the node set and the
      stack to where they started. */
  lemma {:induction false} RemovalsUndone(g: Graph, list: seq<Edge>)
    requires Closed(g) && NoDuplicates(list) && Elements(list) <= g.edges
    ensures RemoveAll(g, list).0 == Ok
    ensures RestoreTimes(RemoveAll(g, list).1, |list|) == (Ok, g)
    decreases |list|
  {
    if list != [] {
      var e := list[0];
      var rest := list[1..];
      RestoreUndoesRemove(g, e.0, e.1);
      ClosedPreserved(g, e.0, e.1);
      var h := Remove(g, e.0, e.1).1;
      assert Elements(rest) <= h.edges by {
        forall x | x in Elements(rest)
          ensures x in h.edges
        {
          var k :| 0 <= k < |rest| && rest[k] == x;
          assert list[k + 1] == x;
        }
      }
      assert NoDuplicates(rest) by {
        forall i, j | 0 <= i < j < |rest|
          ensures rest[i] != rest[j]
        {
          assert rest[i] == list[i + 1] && rest[j] == list[j + 1];
        }
      }
      RemovalsUndone(h, rest);
      var after := RemoveAll(h, rest).1;
      RestoreTimesSplit(after, |rest|, 1);
      assert |list| == |rest| + 1;
    }
  }

  /** The graph object of kuo.py, whose operations update its fields in place. */
  class SGraph {
    var nodes: set<Node>
    var edges: set<Edge>
    var restoreStack: seq<Edge>

    ghost function State(): Graph
      reads this
    {
      Graph(nodes, edges, restoreStack)
    }

    /** `SGraph(iterable)`: a graph built from a list of edges, with an empty
        restore stack. */
    constructor (edgeList: seq<Edge>)
      ensures Closed(State())
      ensures edges == (set e | e in edgeList) && nodes == Endpoints(edges) && restoreStack == []
    {
      edges := set e | e in edgeList;
      nodes := Endpoints(set e | e in edgeList);
      restoreStack := [];
    }

    method RemoveEdge(u: Node, v: Node) returns (out: Outcome)
      modifies this
      ensures (out, State()) == Remove(old(State()), u, v)
    {
      if (u, v) !in edges {
        return Raise(EdgeNotInGraph(u, v));
      }
      edges := edges - {(u, v)};
      restoreStack := restoreStack + [(u, v)];
      return Ok;
    }

    method AddEdge(u: Node, v: Node)
      modifies this
      ensures State() == Add(old(State()), u, v)
      ensures restoreStack == old(restoreStack)
    {
      nodes := nodes + {u, v};
      edges := edges + {(u, v)};
    }

    method RestoreEdge() returns (out: Outcome)
      modifies this
      ensures (out, State()) == Restore(old(State()))
    {
      if restoreStack == [] {
        return Raise(PopFromEmptyList);
      }
      var e := restoreStack[|restoreStack| - 1];
      restoreStack := restoreStack[..|restoreStack| - 1];
      AddEdge(e.0, e.1);
      return Ok;
    }
  }
}

/**
 An abstract directed graph in the manner of a networkx `DiGraph`: a node is a
 string identifier (the loader splits lines of text into them), an edge is an
 ordered pair of nodes, and the edges present at one moment form a set. The
 degrees networkx reports are the sizes of the successor and predecessor sets.
 The module also gives Python's ordering of strings, which breaks ties between
 equally scored nodes.
 */
module Digraph {

  type Node = string
  type Edge = (Node, Node)

  /** How a call into the graph library or a Python list ends. */
  datatype Raised = EdgeNotInGraph(u: Node, v: Node) | PopFromEmptyList
  datatype Outcome = Ok | Raise(error: Raised)
  datatype Option<T> = None | Some(value: T)

  /** networkx `successors(u)`: the targets of the edges that leave `u`. */
  function Successors(edges: set<Edge>, u: Node): (r: set<Node>)
    ensures forall v :: v in r <==> (u, v) in edges
  {
    set e | e in edges && e.0 == u :: e.1
  }

  /** networkx `predecessors(v)`: the sources of the edges that enter `v`. */
  function Predecessors(edges: set<Edge>, v: Node): (r: set<Node>)
    ensures forall u :: u in r <==> (u, v) in edges
  {
    set e | e in edges && e.1 == v :: e.0
  }

  function OutDegree(edges: set<Edge>, u: Node): nat
  {
    |Successors(edges, u)|
  }

  function InDegree(edges: set<Edge>, v: Node): nat
  {
    |Predecessors(edges, v)|
  }

  /** The edges whose source lies in `s`. */
  function OutEdges(edges: set<Edge>, s: set<Node>): set<Edge>
  {
    set e | e in edges && e.0 in s
  }

  /** The nodes a networkx graph built from these edges holds. */
  function Endpoints(edges: set<Edge>): (r: set<Node>)
    ensures forall e :: e in edges ==> e.0 in r && e.1 in r
    ensures forall v :: v in r ==> exists e :: e in edges && (e.0 == v || e.1 == v)
  {
    (set e | e in edges :: e.0) + (set e | e in edges :: e.1)
  }

  /** Removing a present edge (u, v) lowers the in-degree of `v` by one and no other. */
  lemma InDegreeAfterRemove(edges: set<Edge>, u: Node, v: Node, w: Node)
    requires (u, v) in edges
    ensures InDegree(edges - {(u, v)}, w) == if w == v then InDegree(edges, w) - 1 else InDegree(edges, w)
  {
    if w == v {
      assert Predecessors(edges - {(u, v)}, v) == Predecessors(edges, v) - {u};
    } else {
      assert Predecessors(edges - {(u, v)}, w) == Predecessors(edges, w);
    }
  }

  /** Adding an absent edge (u, v) raises the in-degree of `v` by one and no other. */
  lemma InDegreeAfterAdd(edges: set<Edge>, u: Node, v: Node, w: Node)
    requires (u, v) !in edges
    ensures InDegree(edges + {(u, v)}, w) == if w == v then InDegree(edges, w) + 1 else InDegree(edges, w)
  {
    if w == v {
      assert Predecessors(edges + {(u, v)}, v) == Predecessors(edges, v) + {u};
    } else {
      assert Predecessors(edges + {(u, v)}, w) == Predecessors(edges, w);
    }
  }

  /** Removing the out-edges of `a`, then those of `b` among the rest, removes those of `a + b`. */
  lemma OutEdgesTwice(edges: set<Edge>, a: set<Node>, b: set<Node>)
    ensures edges - OutEdges(edges, a) - OutEdges(edges - OutEdges(edges, a), b) == edges - OutEdges(edges, a + b)
  {
  }

  lemma SubsetCard<T>(a: set<T>, b: set<T>)
    requires a <= b
    ensures |a| <= |b|
    ensures |a| == |b| ==> a == b
  {
    assert b == a + (b - a);
    assert |b| == |a| + |b - a|;
    if |a| == |b| {
      assert |b - a| == 0;
    }
  }

  // Python's `<` on str: lexicographic order of code points, a proper prefix first.
  predicate Below(a: string, b: string)
  {
    if |b| == 0 then false
    else if |a| == 0 then true
    else if a[0] != b[0] then a[0] < b[0]
    else Below(a[1..], b[1..])
  }

  lemma {:induction false} BelowIrreflexive(a: string)
    ensures !Below(a, a)
  {
    if |a| > 0 {
      BelowIrreflexive(a[1..]);
    }
  }

  lemma {:induction false} BelowTransitive(a: string, b: string, c: string)
    requires Below(a, b) && Below(b, c)
    ensures Below(a, c)
  {
    if |a| > 0 && a[0] == b[0] && b[0] == c[0] {
      BelowTransitive(a[1..], b[1..], c[1..]);
    }
  }

  lemma {:induction false} BelowTotal(a: string, b: string)
    ensures a == b || Below(a, b) || Below(b, a)
  {
    if |a| > 0 && |b| > 0 && a[0] == b[0] {
      BelowTotal(a[1..], b[1..]);
      if a[1..] == b[1..] {
        assert a == [a[0]] + a[1..] && b == [b[0]] + b[1..];
      }
    }
  }

  lemma {:induction false} BelowAsymmetric(a: string, b: string)
    requires Below(a, b)
    ensures !Below(b, a)
  {
    if Below(b, a) {
      BelowTransitive(a, b, a);
      BelowIrreflexive(a);
    }
  }
}

/**
 Candidate ranking of new_kuo.py: the heuristic score of a node and the choice
 of the best-scored unreached nodes as driver candidates. Both read the live
 graph (its edges and the reached set) and change nothing.
 */
module Ranking {
  import opened Digraph

  /** `score_node`: out-degree minus in-degree, plus two for every successor not
      yet reached. The reach bonus is even and lies between 0 and twice the
      out-degree: none when every successor is reached, all of it when none is. */
  function Score(edges: set<Edge>, reachable: set<Node>, v: Node): (r: int)
    ensures var base := OutDegree(edges, v) - InDegree(edges, v);
      && base <= r <= base + 2 * OutDegree(edges, v)
      && (r - base) % 2 == 0
      && (Successors(edges, v) <= reachable ==> r == base)
      && (Successors(edges, v) !! reachable ==> r == base + 2 * OutDegree(edges, v))
  {
    var newSuccessors := Successors(edges, v) - reachable;
    SubsetCard(newSuccessors, Successors(edges, v));
    assert Successors(edges, v) !! reachable ==> newSuccessors == Successors(edges, v);
    OutDegree(edges, v) - InDegree(edges, v) + |newSuccessors| * 2
  }

  /** Python's `(score, node) > (score', node')`: a higher score first, and among
      equal scores the larger identifier. */
  predicate KeyAbove(edges: set<Edge>, reachable: set<Node>, a: Node, b: Node)
  {
    var sa, sb := Score(edges, reachable, a), Score(edges, reachable, b);
    sa > sb || (sa == sb && Below(b, a))
  }

  lemma KeyAboveOrder(edges: set<Edge>, reachable: set<Node>, a: Node, b: Node, c: Node)
    ensures a == b || KeyAbove(edges, reachable, a, b) || KeyAbove(edges, reachable, b, a)
    ensures KeyAbove(edges, reachable, a, b) ==> !KeyAbove(edges, reachable, b, a)
    ensures KeyAbove(edges, reachable, a, b) && KeyAbove(edges, reachable, b, c) ==> KeyAbove(edges, reachable, a, c)
  {
    BelowTotal(a, b);
    if Below(b, a) { BelowAsymmetric(b, a); }
    if Below(b, a) && Below(c, b) { BelowTransitive(c, b, a); }
  }

  lemma KeyAboveAsymmetric(edges: set<Edge>, reachable: set<Node>)
    ensures forall a, b :: KeyAbove(edges, reachable, a, b) ==> !KeyAbove(edges, reachable, b, a)
  {
    forall a, b | KeyAbove(edges, reachable, a, b)
      ensures !KeyAbove(edges, reachable, b, a)
    {
      KeyAboveOrder(edges, reachable, a, b, b);
    }
  }

  /** `top` is a candidate whose key is above that of every other candidate. */
  predicate IsLargest(edges: set<Edge>, reachable: set<Node>, top: Node, cands: set<Node>)
  {
    top in cands && forall c :: c in cands && c != top ==> KeyAbove(edges, reachable, top, c)
  }

  /** Adding a candidate `x` to a set whose largest is `y` gives a set whose
      largest is whichever of the two has the higher key. */
  lemma LargestAdd(edges: set<Edge>, reachable: set<Node>, x: Node, y: Node, rest: set<Node>)
    requires x !in rest && IsLargest(edges, reachable, y, rest)
    ensures KeyAbove(edges, reachable, y, x) ==> IsLargest(edges, reachable, y, rest + {x})
    ensures !KeyAbove(edges, reachable, y, x) ==> IsLargest(edges, reachable, x, rest + {x})
  {
    KeyAboveOrder(edges, reachable, x, y, y);
    if !KeyAbove(edges, reachable, y, x) {
      forall c | c in rest + {x} && c != x
        ensures KeyAbove(edges, reachable, x, c)
      {
        if c != y { KeyAboveOrder(edges, reachable, x, y, c); }
      }
    }
  }

  /** Every nonempty set of candidates holds one whose key is above all others. */
  lemma {:induction false} LargestExists(edges: set<Edge>, reachable: set<Node>, cands: set<Node>)
    requires cands != {}
    ensures exists top :: IsLargest(edges, reachable, top, cands)
    decreases cands
  {
    var x :| x in cands;
    var rest := cands - {x};
    if rest == {} {
      assert cands == {x};
      assert IsLargest(edges, reachable, x, cands);
    } else {
      LargestExists(edges, reachable, rest);
      var y :| IsLargest(edges, reachable, y, rest);
      LargestAdd(edges, reachable, x, y, rest);
      assert rest + {x} == cands;
    }
  }

  /** The candidate with the largest `(score, node)` key. */
  function Largest(edges: set<Edge>, reachable: set<Node>, cands: set<Node>): (top: Node)
    requires cands != {}
    ensures top in cands
  {
    LargestExists(edges, reachable, cands);
    KeyAboveAsymmetric(edges, reachable);
    var top :| IsLargest(edges, reachable, top, cands);
    top
  }

  /** The key of `Largest` is above that of every other candidate. */
  lemma LargestIsAbove(edges: set<Edge>, reachable: set<Node>, cands: set<Node>)
    requires cands != {}
    ensures IsLargest(edges, reachable, Largest(edges, reachable, cands), cands)
  {
    LargestExists(edges, reachable, cands);
  }

  /** `r` lists candidates in decreasing key order, and every candidate it
      leaves out has a key below each listed one. */
  ghost predicate RankedPrefix(edges: set<Edge>, reachable: set<Node>, r: seq<Node>, cands: set<Node>)
  {
    && (forall i :: 0 <= i < |r| ==> r[i] in cands)
    && (forall i, j :: 0 <= i < j < |r| ==> KeyAbove(edges, reachable, r[i], r[j]))
    && (forall c, i :: c in cands && c !in r && 0 <= i < |r| ==> KeyAbove(edges, reachable, r[i], c))
  }

  lemma RankedPrefixCons(edges: set<Edge>, reachable: set<Node>, top: Node, rest: seq<Node>, cands: set<Node>)
    requires IsLargest(edges, reachable, top, cands)
    requires RankedPrefix(edges, reachable, rest, cands - {top})
    ensures RankedPrefix(edges, reachable, [top] + rest, cands)
  {
    ConsOrdered(edges, reachable, top, rest, cands);
    ConsAboveOmitted(edges, reachable, top, rest, cands);
  }

  /** The largest candidate ahead of a ranked list of the rest keeps the list
      in decreasing key order. */
  lemma ConsOrdered(edges: set<Edge>, reachable: set<Node>, top: Node, rest: seq<Node>, cands: set<Node>)
    requires IsLargest(edges, reachable, top, cands)
    requires RankedPrefix(edges, reachable, rest, cands - {top})
    ensures forall i, j :: 0 <= i < j < |[top] + rest| ==> KeyAbove(edges, reachable, ([top] + rest)[i], ([top] + rest)[j])
  {
    var r := [top] + rest;
    forall i, j | 0 <= i < j < |r|
      ensures KeyAbove(edges, reachable, r[i], r[j])
    {
      assert r[j] == rest[j - 1];
      if i > 0 { assert r[i] == rest[i - 1]; }
    }
  }

  /** Every candidate the longer list leaves out is below each of its entries. */
  lemma ConsAboveOmitted(edges: set<Edge>, reachable: set<Node>, top: Node, rest: seq<Node>, cands: set<Node>)
    requires IsLargest(edges, reachable, top, cands)
    requires RankedPrefix(edges, reachable, rest, cands - {top})
    ensures forall c, i :: c in cands && c !in [top] + rest && 0 <= i < |[top] + rest| ==> KeyAbove(edges, reachable, ([top] + rest)[i], c)
  {
    var r := [top] + rest;
    forall c, i | c in cands && c !in r && 0 <= i < |r|
      ensures KeyAbove(edges, reachable, r[i], c)
    {
      assert c != top && c in cands - {top};
      if i > 0 {
        assert r[i] == rest[i - 1];
        assert c !in rest;
      }
    }
  }

  /** `heapq.nlargest(n, ...)` over the candidates' keys: the first `n` of the
      candidates sorted by key, largest first. */
  function TopN(edges: set<Edge>, reachable: set<Node>, cands: set<Node>, n: nat): (r: seq<Node>)
    ensures forall i :: 0 <= i < |r| ==> r[i] in cands
    decreases n
  {
    if n == 0 || cands == {} then []
    else
      var top := Largest(edges, reachable, cands);
      [top] + TopN(edges, reachable, cands - {top}, n - 1)
  }

  /** TopN lists `n` candidates, or all of them when there are fewer. */
  lemma {:induction false} TopNLength(edges: set<Edge>, reachable: set<Node>, cands: set<Node>, n: nat, r: seq<Node>)
    requires r == TopN(edges, reachable, cands, n)
    ensures |r| == if n <= |cands| then n else |cands|
    decreases n, 1
  {
    if n != 0 && cands != {} {
      TopNLengthStep(edges, reachable, cands, n, r);
    }
  }

  /** The length step: one candidate is listed and one fewer is sought. */
  lemma {:induction false} TopNLengthStep(edges: set<Edge>, reachable: set<Node>, cands: set<Node>, n: nat, r: seq<Node>)
    requires n != 0 && cands != {}
    requires r == TopN(edges, reachable, cands, n)
    ensures |r| == if n <= |cands| then n else |cands|
    decreases n, 0
  {
    var top := Largest(edges, reachable, cands);
    var rest := cands - {top};
    var tail := TopN(edges, reachable, rest, n - 1);
    assert r == [top] + tail;
    assert |rest| == |cands| - 1;
    TopNLength(edges, reachable, rest, n - 1, tail);
    if n <= |cands| {
      assert |tail| == n - 1;
    } else {
      assert |tail| == |rest|;
    }
  }

  /** TopN lists candidates in decreasing key order, and every candidate it
      leaves out is below each listed one. */
  lemma {:induction false} TopNRanked(edges: set<Edge>, reachable: set<Node>, cands: set<Node>, n: nat, r: seq<Node>)
    requires r == TopN(edges, reachable, cands, n)
    ensures RankedPrefix(edges, reachable, r, cands)
    decreases n, 1
  {
    if n != 0 && cands != {} {
      TopNRankedStep(edges, reachable, cands, n, r);
    }
  }

  /** The order step: the largest candidate heads a ranked list of the rest. */
  lemma {:induction false} TopNRankedStep(edges: set<Edge>, reachable: set<Node>, cands: set<Node>, n: nat, r: seq<Node>)
    requires n != 0 && cands != {}
    requires r == TopN(edges, reachable, cands, n)
    ensures RankedPrefix(edges, reachable, r, cands)
    decreases n, 0
  {
    var top := Largest(edges, reachable, cands);
    var rest := cands - {top};
    var tail := TopN(edges, reachable, rest, n - 1);
    assert r == [top] + tail;
    LargestIsAbove(edges, reachable, cands);
    TopNRanked(edges, reachable, rest, n - 1, tail);
    RankedPrefixCons(edges, reachable, top, tail, cands);
  }

  /** `find_candidates`: of the unreached nodes, the `kRemaining` plus a buffer of
      up to ten best by key, largest first. */
  function FindCandidates(nodes: set<Node>, edges: set<Edge>, reachable: set<Node>, kRemaining: int): (r: seq<Node>)
    ensures forall i :: 0 <= i < |r| ==> r[i] in nodes && r[i] !in reachable
  {
    var candidates := nodes - reachable;
    var buffer := if 10 < |candidates| then 10 else |candidates|;
    var n := kRemaining + buffer;
    TopN(edges, reachable, candidates, if n <= 0 then 0 else n)
  }

  /** The candidates are the `kRemaining` plus a buffer of `min(10, m)` best of
      the `m` unreached nodes (all of them when there are fewer), listed without
      repetition in strictly decreasing key order; every unreached node left
      out has a key below each listed one. */
  lemma FindCandidatesRanked(nodes: set<Node>, edges: set<Edge>, reachable: set<Node>, kRemaining: int)
    ensures var r := FindCandidates(nodes, edges, reachable, kRemaining);
      var m := |nodes - reachable|;
      var n := kRemaining + (if 10 < m then 10 else m);
      && |r| == (if n <= 0 then 0 else if n <= m then n else m)
      && (forall i, j :: 0 <= i < j < |r| ==> r[i] != r[j] && KeyAbove(edges, reachable, r[i], r[j]))
      && (forall c, i :: c in nodes && c !in reachable && c !in r && 0 <= i < |r| ==>
            KeyAbove(edges, reachable, r[i], c))
  {
    var candidates := nodes - reachable;
    var m := |candidates|;
    var n := kRemaining + (if 10 < m then 10 else m);
    var r := FindCandidates(nodes, edges, reachable, kRemaining);
    TopNLength(edges, reachable, candidates, if n <= 0 then 0 else n, r);
    TopNRanked(edges, reachable, candidates, if n <= 0 then 0 else n, r);
    forall i, j | 0 <= i < j < |r|
      ensures r[i] != r[j]
    {
      KeyAboveOrder(edges, reachable, r[i], r[j], r[j]);
    }
  }
}

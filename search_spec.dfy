/**
 What `implication` and `run_combination` of new_kuo.py compute, stated as
 functions of the graph's edges and the search state on entry, with the
 properties the search relies on proved about them. The methods in module
 NewKuo, which mutate the graph in place and undo their mutations, are proved
 to agree with these functions.
 */
module SearchSpec {
  import opened Digraph
  import opened Ranking

  /** The unreached nodes that no present edge enters. */
  function Frontier(nodes: set<Node>, edges: set<Edge>, reached: set<Node>): set<Node>
  {
    set v | v in nodes && v !in reached && Predecessors(edges, v) == {}
  }

  lemma RemainingShrinks(nodes: set<Node>, reached: set<Node>, s: set<Node>)
    requires reached <= nodes && s <= nodes - reached && s != {}
    ensures |nodes - (reached + s)| < |nodes - reached|
    ensures |reached + s| == |reached| + |s|
    ensures nodes - (reached + s) == (nodes - reached) - s
  {
    assert nodes - reached == (nodes - (reached + s)) + s;
    assert (nodes - (reached + s)) !! s;
  }

  /** The implication cascade from `reached`: peel the frontier as one new level,
      drop its out-edges, repeat; the levels found when every node is reached,
      None at a dead end. */
  function Cascade(nodes: set<Node>, edges: set<Edge>, reached: set<Node>): Option<seq<set<Node>>>
    requires reached <= nodes
    decreases |nodes - reached|
  {
    if reached == nodes then Some([])
    else
      var s := Frontier(nodes, edges, reached);
      if s == {} then None
      else
        RemainingShrinks(nodes, reached, s);
        match Cascade(nodes, edges - OutEdges(edges, s), reached + s)
        case None => None
        case Some(levels) => Some([s] + levels)
  }

  /** One step of a successful cascade that is not yet done: its first level is
      the frontier, and the rest is the cascade after peeling it. */
  lemma CascadeStep(nodes: set<Node>, edges: set<Edge>, reached: set<Node>)
    requires reached < nodes
    requires Cascade(nodes, edges, reached).Some?
    ensures var s := Frontier(nodes, edges, reached);
      && s != {} && s <= nodes - reached
      && Cascade(nodes, edges - OutEdges(edges, s), reached + s).Some?
      && Cascade(nodes, edges, reached).value == [s] + Cascade(nodes, edges - OutEdges(edges, s), reached + s).value
  {
  }

  /** Every level is nonempty and lies inside `unreached`. */
  ghost predicate LevelsWithin(levels: seq<set<Node>>, unreached: set<Node>)
  {
    forall i :: 0 <= i < |levels| ==> levels[i] != {} && levels[i] <= unreached
  }

  ghost predicate LevelsDisjoint(levels: seq<set<Node>>)
  {
    forall i, j :: 0 <= i < j < |levels| ==> levels[i] !! levels[j]
  }

  /** Every node of `unreached` lies in some level. */
  ghost predicate LevelsCover(levels: seq<set<Node>>, unreached: set<Node>)
  {
    forall v :: v in unreached ==> exists i :: 0 <= i < |levels| && v in levels[i]
  }

  /** `implication`'s test `len(reachable) == len(nodes)`: as the reached
      nodes are nodes, equal sizes mean every node is reached. */
  lemma AllReachedBySize(nodes: set<Node>, reached: set<Node>)
    requires reached <= nodes
    ensures |reached| == |nodes| <==> reached == nodes
  {
    SubsetCard(reached, nodes);
  }

  /** The three outcomes of one cascade step, as `implication` takes them. */
  lemma CascadeDone(nodes: set<Node>, edges: set<Edge>, reached: set<Node>)
    requires reached == nodes
    ensures Cascade(nodes, edges, reached) == Some([])
  {
  }

  lemma CascadeStuck(nodes: set<Node>, edges: set<Edge>, reached: set<Node>)
    requires reached < nodes && Frontier(nodes, edges, reached) == {}
    ensures Cascade(nodes, edges, reached) == None
  {
  }

  lemma CascadeAdvances(nodes: set<Node>, edges: set<Edge>, reached: set<Node>, s: set<Node>)
    requires reached < nodes && s == Frontier(nodes, edges, reached) && s != {}
    ensures reached + s <= nodes && s !! reached
    ensures nodes - (reached + s) < nodes - reached
    ensures var next := Cascade(nodes, edges - OutEdges(edges, s), reached + s);
      && Cascade(nodes, edges, reached).Some? == next.Some?
      && (next.Some? ==> Cascade(nodes, edges, reached).value == [s] + next.value)
  {
    var x :| x in s;
    assert x in nodes - reached && x !in nodes - (reached + s);
  }

  /** `levels` split `unreached` into nonempty, pairwise disjoint parts. */
  ghost predicate LevelsPartition(levels: seq<set<Node>>, unreached: set<Node>)
  {
    LevelsWithin(levels, unreached) && LevelsDisjoint(levels) && LevelsCover(levels, unreached)
  }

  lemma WithinCons(s: set<Node>, rest: seq<set<Node>>, unreached: set<Node>)
    requires s != {} && s <= unreached && LevelsWithin(rest, unreached - s)
    ensures LevelsWithin([s] + rest, unreached)
  {
    var levels := [s] + rest;
    forall i | 0 <= i < |levels|
      ensures levels[i] != {} && levels[i] <= unreached
    {
      if i > 0 { assert levels[i] == rest[i - 1]; }
    }
  }

  lemma DisjointCons(s: set<Node>, rest: seq<set<Node>>, unreached: set<Node>)
    requires LevelsWithin(rest, unreached - s) && LevelsDisjoint(rest)
    ensures LevelsDisjoint([s] + rest)
  {
    var levels := [s] + rest;
    forall i, j | 0 <= i < j < |levels|
      ensures levels[i] !! levels[j]
    {
      assert levels[j] == rest[j - 1];
      if i > 0 { assert levels[i] == rest[i - 1]; }
    }
  }

  lemma CoverCons(s: set<Node>, rest: seq<set<Node>>, unreached: set<Node>)
    requires LevelsCover(rest, unreached - s)
    ensures LevelsCover([s] + rest, unreached)
  {
    var levels := [s] + rest;
    forall v | v in unreached
      ensures exists i :: 0 <= i < |levels| && v in levels[i]
    {
      if v !in s {
        assert v in unreached - s;
        var i :| 0 <= i < |rest| && v in rest[i];
        assert v in levels[i + 1];
      } else {
        assert v in levels[0];
      }
    }
  }

  /** A successful cascade's levels split the unreached nodes into nonempty,
      pairwise disjoint parts, and there are no more of them than those nodes. */
  lemma {:induction false} CascadeLevels(nodes: set<Node>, edges: set<Edge>, reached: set<Node>)
    requires reached <= nodes
    requires Cascade(nodes, edges, reached).Some?
    ensures LevelsPartition(Cascade(nodes, edges, reached).value, nodes - reached)
    ensures |Cascade(nodes, edges, reached).value| <= |nodes - reached|
    decreases |nodes - reached|
  {
    if reached == nodes {
      assert nodes - reached == {};
    } else {
      CascadeStep(nodes, edges, reached);
      var s := Frontier(nodes, edges, reached);
      RemainingShrinks(nodes, reached, s);
      var edges', reached' := edges - OutEdges(edges, s), reached + s;
      CascadeLevels(nodes, edges', reached');
      var rest := Cascade(nodes, edges', reached').value;
      WithinCons(s, rest, nodes - reached);
      DisjointCons(s, rest, nodes - reached);
      CoverCons(s, rest, nodes - reached);
    }
  }

  /** Every candidate is a node of the graph. */
  ghost predicate AllIn(cands: seq<Node>, nodes: set<Node>)
  {
    forall j :: 0 <= j < |cands| ==> cands[j] in nodes
  }

  /** What `run_combination(k)` finds from driver set `s0` and reached set
      `reached` over `edges`: the driver set of the first successful branch,
      None when every branch fails. */
  function Search(nodes: set<Node>, edges: set<Edge>, reached: set<Node>, s0: set<Node>, k: int): Option<set<Node>>
    requires s0 <= reached <= nodes
    decreases k - |s0|, 1, 0
  {
    if |s0| >= k then
      if Cascade(nodes, edges, reached).Some? then Some(s0) else None
    else
      TryCandidates(nodes, edges, reached, s0, k, FindCandidates(nodes, edges, reached, k - |s0|), 0)
  }

  /** The candidate loop of `run_combination` from the `i`-th candidate on:
      add the candidate to the driver set, drop its out-edges, search on; the
      first success wins. A candidate already reached is skipped. */
  function TryCandidates(nodes: set<Node>, edges: set<Edge>, reached: set<Node>, s0: set<Node>, k: int,
                         cands: seq<Node>, i: nat): Option<set<Node>>
    requires s0 <= reached <= nodes && |s0| < k
    requires i <= |cands| && AllIn(cands, nodes)
    decreases k - |s0|, 0, |cands| - i
  {
    if i == |cands| then None
    else
      var node := cands[i];
      if node in reached then TryCandidates(nodes, edges, reached, s0, k, cands, i + 1)
      else
        match Search(nodes, edges - OutEdges(edges, {node}), reached + {node}, s0 + {node}, k)
        case Some(d) => Some(d)
        case None => TryCandidates(nodes, edges, reached, s0, k, cands, i + 1)
  }

  /** Below size `k` the search is the candidate loop over the ranked
      candidates for the `k - |s0|` missing places. */
  lemma SearchEntersCandidates(nodes: set<Node>, edges: set<Edge>, reached: set<Node>, s0: set<Node>, k: int)
    requires s0 <= reached <= nodes && |s0| < k
    ensures Search(nodes, edges, reached, s0, k)
         == TryCandidates(nodes, edges, reached, s0, k, FindCandidates(nodes, edges, reached, k - |s0|), 0)
  {
  }

  /** One turn of the candidate loop on an unreached candidate: the search
      below it decides, and on failure the loop moves to the next candidate. */
  lemma TryCandidateStep(nodes: set<Node>, edges: set<Edge>, reached: set<Node>, s0: set<Node>, k: int,
                         cands: seq<Node>, i: nat)
    requires s0 <= reached <= nodes && |s0| < k
    requires i < |cands| && AllIn(cands, nodes)
    requires cands[i] !in reached
    ensures var node := cands[i];
      var sub := Search(nodes, edges - OutEdges(edges, {node}), reached + {node}, s0 + {node}, k);
      TryCandidates(nodes, edges, reached, s0, k, cands, i)
        == if sub.Some? then sub else TryCandidates(nodes, edges, reached, s0, k, cands, i + 1)
  {
  }

  /** A candidate whose search failed is passed over. */
  lemma TryCandidateSkip(nodes: set<Node>, edges: set<Edge>, reached: set<Node>, s0: set<Node>, k: int,
                         cands: seq<Node>, i: nat)
    requires s0 <= reached <= nodes && |s0| < k
    requires i < |cands| && AllIn(cands, nodes)
    requires cands[i] !in reached
    requires Search(nodes, edges - OutEdges(edges, {cands[i]}), reached + {cands[i]}, s0 + {cands[i]}, k).None?
    ensures TryCandidates(nodes, edges, reached, s0, k, cands, i) == TryCandidates(nodes, edges, reached, s0, k, cands, i + 1)
  {
  }

  /** A driver set the search finds extends `s0` by unreached nodes only, has
      exactly `k` members when `s0` had fewer, and the cascade from it, with its
      new members' out-edges dropped, reaches every node. */
  ghost predicate SoundResult(nodes: set<Node>, edges: set<Edge>, reached: set<Node>, s0: set<Node>, k: int, d: set<Node>)
    requires reached <= nodes
  {
    && s0 <= d <= nodes
    && (d - s0) !! reached
    && (|s0| >= k ==> d == s0)
    && (|s0| < k ==> |d| == k)
    && Cascade(nodes, edges - OutEdges(edges, d - s0), reached + (d - s0)).Some?
  }

  lemma {:induction false} SearchSound(nodes: set<Node>, edges: set<Edge>, reached: set<Node>, s0: set<Node>, k: int)
    requires s0 <= reached <= nodes
    requires Search(nodes, edges, reached, s0, k).Some?
    ensures SoundResult(nodes, edges, reached, s0, k, Search(nodes, edges, reached, s0, k).value)
    decreases k - |s0|, 1, 0
  {
    if |s0| >= k {
      var d := Search(nodes, edges, reached, s0, k).value;
      assert d == s0;
      assert d - s0 == {};
      assert edges - OutEdges(edges, d - s0) == edges;
      assert reached + (d - s0) == reached;
    } else {
      var cands := FindCandidates(nodes, edges, reached, k - |s0|);
      TryCandidatesSound(nodes, edges, reached, s0, k, cands, 0);
    }
  }

  lemma {:induction false} TryCandidatesSound(nodes: set<Node>, edges: set<Edge>, reached: set<Node>, s0: set<Node>,
                                              k: int, cands: seq<Node>, i: nat)
    requires s0 <= reached <= nodes && |s0| < k
    requires i <= |cands| && AllIn(cands, nodes)
    requires TryCandidates(nodes, edges, reached, s0, k, cands, i).Some?
    ensures SoundResult(nodes, edges, reached, s0, k, TryCandidates(nodes, edges, reached, s0, k, cands, i).value)
    decreases k - |s0|, 0, |cands| - i
  {
    var node := cands[i];
    if node in reached {
      TryCandidatesSound(nodes, edges, reached, s0, k, cands, i + 1);
    } else {
      var edges' := edges - OutEdges(edges, {node});
      var reached', s0' := reached + {node}, s0 + {node};
      var found := Search(nodes, edges', reached', s0', k);
      if found.Some? {
        SearchSound(nodes, edges', reached', s0', k);
        var d := found.value;
        assert d - s0 == (d - s0') + {node};
        assert reached + (d - s0) == reached' + (d - s0');
        OutEdgesTwice(edges, {node}, d - s0');
        assert {node} + (d - s0') == d - s0;
      } else {
        TryCandidatesSound(nodes, edges, reached, s0, k, cands, i + 1);
      }
    }
  }

  /** When `k` is the size of `s0` plus the number of unreached nodes, the
      search succeeds: its first candidate already leads to every node being a
      driver. */
  lemma {:induction false} SearchSucceedsAtFullSize(nodes: set<Node>, edges: set<Edge>, reached: set<Node>, s0: set<Node>, k: int)
    requires s0 <= reached <= nodes
    requires k == |s0| + |nodes - reached|
    ensures Search(nodes, edges, reached, s0, k).Some?
    decreases k - |s0|
  {
    if |s0| >= k {
      assert |nodes - reached| == 0;
      assert nodes - reached == {};
      assert reached == nodes;
    } else {
      var cands := FindCandidates(nodes, edges, reached, k - |s0|);
      FindCandidatesRanked(nodes, edges, reached, k - |s0|);
      assert |cands| >= 1;
      var node := cands[0];
      assert node in nodes - reached;
      var edges' := edges - OutEdges(edges, {node});
      var reached', s0' := reached + {node}, s0 + {node};
      assert node !in s0;
      assert nodes - reached' == (nodes - reached) - {node};
      SearchSucceedsAtFullSize(nodes, edges', reached', s0', k);
    }
  }

  /** The size-escalation loop cannot run past `k = |nodes|`: from the initial
      driver set `s0`, with nothing else reached, the search at that size
      succeeds, the empty graph included. */
  lemma EscalationEndsByNodeCount(nodes: set<Node>, edges: set<Edge>, s0: set<Node>)
    requires s0 <= nodes
    ensures Search(nodes, edges, s0, s0, |nodes|).Some?
  {
    assert nodes == s0 + (nodes - s0);
    assert |nodes| == |s0| + |nodes - s0|;
    SearchSucceedsAtFullSize(nodes, edges, s0, s0, |nodes|);
  }

  /** The size-escalation loop of `kuos_algorithm` from size `k` on, over the
      graph left once the initial driver set `s0` is in place: the first size
      whose search succeeds gives its driver set and true; a timeout observed
      before a size is tried gives `s0` and false; past `|nodes|` the empty set
      and false. */
  function Escalate(nodes: set<Node>, edges: set<Edge>, s0: set<Node>, k: int, expired: int -> bool): (set<Node>, bool)
    requires s0 <= nodes
    decreases |nodes| + 1 - k
  {
    if k > |nodes| then ({}, false)
    else if expired(k) then (s0, false)
    else match Search(nodes, edges, s0, s0, k)
      case Some(d) => (d, true)
      case None => Escalate(nodes, edges, s0, k + 1, expired)
  }

  /** One turn of the escalation at a size `k` within range: an expired clock
      stops it with `s0`; otherwise the search at size `k` decides, and on
      failure the escalation moves to size `k + 1`. */
  lemma EscalateStep(nodes: set<Node>, edges: set<Edge>, s0: set<Node>, k: int, expired: int -> bool)
    requires s0 <= nodes && k <= |nodes|
    ensures expired(k) ==> Escalate(nodes, edges, s0, k, expired) == (s0, false)
    ensures !expired(k) && Search(nodes, edges, s0, s0, k).Some? ==>
      Escalate(nodes, edges, s0, k, expired) == (Search(nodes, edges, s0, s0, k).value, true)
    ensures !expired(k) && Search(nodes, edges, s0, s0, k).None? ==>
      Escalate(nodes, edges, s0, k, expired) == Escalate(nodes, edges, s0, k + 1, expired)
  {
  }

  /** The escalation passed every size from `k0` below `k`: the clock had not
      expired and the search failed. */
  ghost predicate PassedSizes(nodes: set<Node>, edges: set<Edge>, s0: set<Node>, k0: int, k: int, expired: int -> bool)
    requires s0 <= nodes
  {
    forall j :: k0 <= j < k ==> !expired(j) && Search(nodes, edges, s0, s0, j).None?
  }

  lemma PassedSizesSnoc(nodes: set<Node>, edges: set<Edge>, s0: set<Node>, k0: int, k: int, expired: int -> bool)
    requires s0 <= nodes && PassedSizes(nodes, edges, s0, k0, k, expired)
    requires !expired(k) && Search(nodes, edges, s0, s0, k).None?
    ensures PassedSizes(nodes, edges, s0, k0, k + 1, expired)
  {
  }

  /** Past sizes that were passed, the escalation from `k0` is the escalation from `k`. */
  lemma {:induction false} EscalateResumes(nodes: set<Node>, edges: set<Edge>, s0: set<Node>, k0: int, k: int, expired: int -> bool)
    requires s0 <= nodes && k0 <= k && PassedSizes(nodes, edges, s0, k0, k, expired)
    ensures Escalate(nodes, edges, s0, k0, expired) == Escalate(nodes, edges, s0, k, expired)
    decreases k - k0
  {
    if k0 < k {
      assert !expired(k0) && Search(nodes, edges, s0, s0, k0).None?;
      assert PassedSizes(nodes, edges, s0, k0 + 1, k, expired);
      EscalateResumes(nodes, edges, s0, k0 + 1, k, expired);
    }
  }

  /** Without a timeout the escalation completes: the fallback past `|nodes|`
      is never taken, the empty graph included. */
  lemma {:induction false} EscalateCompletes(nodes: set<Node>, edges: set<Edge>, s0: set<Node>, k: int, expired: int -> bool)
    requires s0 <= nodes && k <= |nodes|
    requires forall k' :: k <= k' <= |nodes| ==> !expired(k')
    ensures Escalate(nodes, edges, s0, k, expired).1
    decreases |nodes| + 1 - k
  {
    if Search(nodes, edges, s0, s0, k).None? {
      if k == |nodes| {
        EscalationEndsByNodeCount(nodes, edges, s0);
      } else {
        EscalateCompletes(nodes, edges, s0, k + 1, expired);
      }
    }
  }

  /** A search started from the driver set alone, at a size `k` not below its
      own, finds a driver set of exactly `k` nodes from whose cascade every
      node is reached. */
  lemma DriverSearchSound(nodes: set<Node>, edges: set<Edge>, s0: set<Node>, k: int)
    requires s0 <= nodes && |s0| <= k
    requires Search(nodes, edges, s0, s0, k).Some?
    ensures var d := Search(nodes, edges, s0, s0, k).value;
      && |d| == k && s0 <= d <= nodes
      && Cascade(nodes, edges - OutEdges(edges, d - s0), d).Some?
  {
    var d := Search(nodes, edges, s0, s0, k).value;
    SearchSound(nodes, edges, s0, s0, k);
    assert s0 + (d - s0) == d;
  }

  /** A completed escalation from size `k0` returns the driver set `d` the
      search finds at size `|d|`, a size from `k0` to `|nodes|`. */
  lemma {:induction false} EscalateFound(nodes: set<Node>, edges: set<Edge>, s0: set<Node>, k0: int, expired: int -> bool)
    requires s0 <= nodes && |s0| <= k0
    requires Escalate(nodes, edges, s0, k0, expired).1
    ensures var d := Escalate(nodes, edges, s0, k0, expired).0;
      k0 <= |d| <= |nodes| && Search(nodes, edges, s0, s0, |d|) == Some(d)
    decreases |nodes| + 1 - k0
  {
    if Search(nodes, edges, s0, s0, k0).Some? {
      EscalateStops(nodes, edges, s0, k0, expired);
    } else {
      EscalateSkips(nodes, edges, s0, k0, expired);
      EscalateFound(nodes, edges, s0, k0 + 1, expired);
    }
  }

  /** The searches from the driver set `s0` fail at every size from `lo` below `hi`. */
  ghost predicate FailsBetween(nodes: set<Node>, edges: set<Edge>, s0: set<Node>, lo: int, hi: int)
    requires s0 <= nodes
  {
    forall k :: lo <= k < hi ==> Search(nodes, edges, s0, s0, k).None?
  }

  lemma FailsBetweenCons(nodes: set<Node>, edges: set<Edge>, s0: set<Node>, lo: int, hi: int)
    requires s0 <= nodes
    requires Search(nodes, edges, s0, s0, lo).None? && FailsBetween(nodes, edges, s0, lo + 1, hi)
    ensures FailsBetween(nodes, edges, s0, lo, hi)
  {
  }

  /** A completed escalation from size `k0` found nothing at the sizes from
      `k0` below that of the driver set it returns. */
  lemma {:induction false} EscalateFirst(nodes: set<Node>, edges: set<Edge>, s0: set<Node>, k0: int, expired: int -> bool)
    requires s0 <= nodes && |s0| <= k0
    requires Escalate(nodes, edges, s0, k0, expired).1
    ensures FailsBetween(nodes, edges, s0, k0, |Escalate(nodes, edges, s0, k0, expired).0|)
    decreases |nodes| + 1 - k0
  {
    if Search(nodes, edges, s0, s0, k0).Some? {
      EscalateStops(nodes, edges, s0, k0, expired);
    } else {
      EscalateSkips(nodes, edges, s0, k0, expired);
      EscalateFirst(nodes, edges, s0, k0 + 1, expired);
      FailsBetweenCons(nodes, edges, s0, k0, |Escalate(nodes, edges, s0, k0, expired).0|);
    }
  }

  lemma EscalateStops(nodes: set<Node>, edges: set<Edge>, s0: set<Node>, k0: int, expired: int -> bool)
    requires s0 <= nodes && |s0| <= k0
    requires Escalate(nodes, edges, s0, k0, expired).1 && Search(nodes, edges, s0, s0, k0).Some?
    ensures Escalate(nodes, edges, s0, k0, expired).0 == Search(nodes, edges, s0, s0, k0).value
    ensures k0 <= |nodes| && |Escalate(nodes, edges, s0, k0, expired).0| == k0
  {
    DriverSearchSound(nodes, edges, s0, k0);
  }

  lemma EscalateSkips(nodes: set<Node>, edges: set<Edge>, s0: set<Node>, k0: int, expired: int -> bool)
    requires s0 <= nodes
    requires Escalate(nodes, edges, s0, k0, expired).1 && Search(nodes, edges, s0, s0, k0).None?
    ensures Escalate(nodes, edges, s0, k0, expired) == Escalate(nodes, edges, s0, k0 + 1, expired)
  {
  }

  /** What `kuos_algorithm` returns on completion: a driver set that extends
      `s0` and whose cascade reaches every node, of the smallest size from
      `|s0|` on at which the search succeeds. */
  lemma EscalateSound(nodes: set<Node>, edges: set<Edge>, s0: set<Node>, expired: int -> bool)
    requires s0 <= nodes
    requires Escalate(nodes, edges, s0, |s0|, expired).1
    ensures var d := Escalate(nodes, edges, s0, |s0|, expired).0;
      && s0 <= d <= nodes
      && Cascade(nodes, edges - OutEdges(edges, d - s0), d).Some?
      && FailsBetween(nodes, edges, s0, |s0|, |d|)
  {
    var d := Escalate(nodes, edges, s0, |s0|, expired).0;
    EscalateFound(nodes, edges, s0, |s0|, expired);
    EscalateFirst(nodes, edges, s0, |s0|, expired);
    DriverSearchSound(nodes, edges, s0, |d|);
  }

  /** An escalation that does not complete stopped on a timeout: it returns
      `s0`, and the oracle reported expiry at some size from `k` to `|nodes|`. */
  lemma {:induction false} EscalateTimedOut(nodes: set<Node>, edges: set<Edge>, s0: set<Node>, k: int, expired: int -> bool)
    requires s0 <= nodes && k <= |nodes|
    requires !Escalate(nodes, edges, s0, k, expired).1
    ensures Escalate(nodes, edges, s0, k, expired).0 == s0
    ensures exists k' :: k <= k' <= |nodes| && expired(k')
    decreases |nodes| + 1 - k
  {
    if !expired(k) {
      if k == |nodes| {
        EscalationEndsByNodeCount(nodes, edges, s0);
      } else {
        EscalateTimedOut(nodes, edges, s0, k + 1, expired);
      }
    }
  }
}

// State linearization (FSA5Serializer.linearize): a depth-first walk from
// the root with an explicit stack and a visited set that lists every
// reachable state once; the list fixes the order in which states are laid
// out in the byte stream.

module Linearizer {
  import opened LittleEndian
  import opened Automaton

  /** No state is listed twice. */
  ghost predicate Distinct(lin: seq<nat>)
  {
    forall i, k | 0 <= i < k < |lin| :: lin[i] != lin[k]
  }

  lemma DistinctAppend(lin: seq<nat>, x: nat)
    requires Distinct(lin) && x !in lin
    ensures Distinct(lin + [x])
  {
    var l := lin + [x];
    forall i, k | 0 <= i < k < |l|
      ensures l[i] != l[k]
    {
      if k < |lin| {
        assert l[i] == lin[i] && l[k] == lin[k];
      } else {
        assert l[i] == lin[i] && l[k] == x;
      }
    }
  }

  /** Every non-terminal arc target of a listed state is listed too. */
  ghost predicate Closed(f: Fsa, lin: seq<nat>)
    requires f.Valid()
  {
    forall x, y | x in lin && f.IsState(x) && y in f.Targets(x) :: y in lin
  }

  /** Every target of a listed state is listed or still waiting on the stack. */
  ghost predicate Covered(f: Fsa, lin: seq<nat>, stack: seq<nat>)
    requires f.Valid()
  {
    forall x, y | x in lin && f.IsState(x) && y in f.Targets(x) :: y in lin || y in stack
  }

  /** Popping a state that is already listed keeps every target covered. */
  lemma CoveredAfterPop(f: Fsa, lin: seq<nat>, nodes: seq<nat>)
    requires f.Valid() && |nodes| > 0 && nodes[|nodes| - 1] in lin
    requires Covered(f, lin, nodes)
    ensures Covered(f, lin, nodes[..|nodes| - 1])
  {
    forall x, y | x in lin && f.IsState(x) && y in f.Targets(x)
      ensures y in lin || y in nodes[..|nodes| - 1]
    {
      if y !in lin {
        var i :| 0 <= i < |nodes| && nodes[i] == y;
        assert i < |nodes| - 1;
        assert nodes[..|nodes| - 1][i] == y;
      }
    }
  }

  /** Listing the popped state and pushing its unlisted targets keeps every
      target covered. */
  lemma CoveredAfterVisit(f: Fsa, before: seq<nat>, nodes: seq<nat>, after: seq<nat>)
    requires f.Valid() && |nodes| > 0 && f.IsState(nodes[|nodes| - 1])
    requires Covered(f, before, nodes)
    requires forall y | y in nodes[..|nodes| - 1] :: y in after
    requires forall y | y in f.Targets(nodes[|nodes| - 1]) :: y in before + [nodes[|nodes| - 1]] || y in after
    ensures Covered(f, before + [nodes[|nodes| - 1]], after)
  {
    var node := nodes[|nodes| - 1];
    forall x, y | x in before + [node] && f.IsState(x) && y in f.Targets(x)
      ensures y in before + [node] || y in after
    {
      if x != node && y !in before && y != node {
        assert x in before;
        var i :| 0 <= i < |nodes| && nodes[i] == y;
        assert i < |nodes| - 1;
        assert nodes[..|nodes| - 1][i] == y;
      }
    }
  }

  /** A listing of the states of f as serialization lays them out: the
      root first, every state once, only states, closed under arc targets,
      and exactly the states reachable from the root. */
  ghost predicate Linearization(f: Fsa, lin: seq<nat>)
    requires f.Valid()
  {
    && |lin| > 0 && lin[0] == f.root
    && Distinct(lin)
    && (forall s | s in lin :: f.IsState(s))
    && Closed(f, lin)
    && (forall s :: s in lin <==> f.Reachable(s))
  }

  /**
   * The states reachable from the root, each once, root first, in the order
   * an explicit-stack depth-first walk discovers them (targets pushed in arc
   * order, so the last arc's target is visited first).
   */
  method Linearize(f: Fsa) returns (lin: seq<nat>)
    requires f.Valid()
    ensures Linearization(f, lin)
  {
    lin := [];
    var visited: set<nat> := {};
    var nodes: seq<nat> := [f.root];
    RootReachable(f);

    while nodes != []
      invariant forall s :: s in visited <==> s in lin
      invariant Distinct(lin)
      invariant forall s | s in lin :: f.IsState(s) && f.Reachable(s)
      invariant forall s | s in nodes :: f.IsState(s) && f.Reachable(s)
      invariant |lin| == 0 ==> nodes == [f.root]
      invariant |lin| > 0 ==> lin[0] == f.root
      invariant Covered(f, lin, nodes)
      decreases set s | 0 <= s < |f.firstArc| && s !in visited, |nodes|
    {
      ghost var popped := nodes;
      var node := nodes[|nodes| - 1];
      nodes := nodes[..|nodes| - 1];
      assert f.IsState(node) && f.Reachable(node);
      if node in visited {
        CoveredAfterPop(f, lin, popped);
        continue;
      }

      ghost var before := lin;
      ghost var unvisited := set s | 0 <= s < |f.firstArc| && s !in visited;
      visited := visited + {node};
      assert (set s | 0 <= s < |f.firstArc| && s !in visited) < unvisited by {
        assert node in unvisited;
      }
      DistinctAppend(lin, node);
      lin := lin + [node];

      var arc := f.firstArc[node];
      ghost var done: seq<nat> := [];
      while arc != 0
        invariant arc < |f.nextArc|
        invariant f.Targets(node) == done + f.TargetsFrom(arc)
        invariant forall y | y in done :: y in lin || y in nodes
        invariant forall y | y in popped[..|popped| - 1] :: y in nodes
        invariant forall s | s in nodes :: f.IsState(s) && f.Reachable(s)
        decreases if arc == 0 then 0 else |f.nextArc| - arc
      {
        ghost var step := if f.isTerminal[arc] then [] else [f.endNode[arc]];
        assert f.TargetsFrom(arc) == step + f.TargetsFrom(f.nextArc[arc]);
        Regroup(done, step, f.TargetsFrom(f.nextArc[arc]));
        if !f.isTerminal[arc] {
          var target := f.endNode[arc];
          assert target in f.Targets(node);
          if target !in visited {
            ReachableStep(f, node, target);
            nodes := nodes + [target];
          }
        }
        done := done + step;
        arc := f.nextArc[arc];
      }
      CoveredAfterVisit(f, before, popped, nodes);
    }
    forall s | f.Reachable(s)
      ensures s in lin
    {
      ClosedHoldsReachable(f, lin, s);
    }
  }
}

// The read-only view of an automaton that the serializer consumes: a root
// state and, per arc, its successor in the state's arc list, label, flags
// and target. Ids are small integers and 0 means "none".

module Automaton {
  import opened LittleEndian

  /**
   * An automaton, seen through its accessors: firstArc[s] is the first arc of
   * state s (0 when s has no arcs), nextArc[a] the arc after a in its state's
   * list (0 when a is the last one), and arcLabel, isFinal, isTerminal and
   * endNode describe arc a. Arc id 0 is never a real arc.
   */
  datatype Fsa = Fsa(
    root: nat,
    firstArc: seq<nat>,
    nextArc: seq<nat>,
    arcLabel: seq<byte>,
    isFinal: seq<bool>,
    isTerminal: seq<bool>,
    endNode: seq<nat>)
  {
    /** Every id the accessors hand out is in range, and an arc list only moves
        forward through the arc ids, so walking it always ends. */
    ghost predicate Valid()
    {
      && root < |firstArc|
      && |arcLabel| == |nextArc| && |isFinal| == |nextArc|
      && |isTerminal| == |nextArc| && |endNode| == |nextArc|
      && (forall s | 0 <= s < |firstArc| :: firstArc[s] < |nextArc|)
      && (forall a | 0 < a < |nextArc| :: nextArc[a] == 0 || a < nextArc[a] < |nextArc|)
      && (forall a | 0 <= a < |nextArc| :: endNode[a] < |firstArc|)
    }

    predicate IsState(s: nat)
    {
      s < |firstArc|
    }

    /** The arcs from a onwards along its state's list: a, nextArc[a], ... */
    function ArcsFrom(a: nat): (r: seq<nat>)
      requires Valid() && a < |nextArc|
      ensures forall i | 0 <= i < |r| :: 0 < r[i] < |nextArc|
      ensures a == 0 <==> r == []
      decreases if a == 0 then 0 else |nextArc| - a
    {
      if a == 0 then [] else [a] + ArcsFrom(nextArc[a])
    }

    /** The outgoing arcs of state s, in the automaton's own order. */
    function Arcs(s: nat): seq<nat>
      requires Valid() && IsState(s)
    {
      ArcsFrom(firstArc[s])
    }

    /** The targets of the non-terminal arcs among ArcsFrom(a), in order. */
    function TargetsFrom(a: nat): (r: seq<nat>)
      requires Valid() && a < |nextArc|
      ensures forall x | x in r :: IsState(x)
      decreases if a == 0 then 0 else |nextArc| - a
    {
      if a == 0 then []
      else (if isTerminal[a] then [] else [endNode[a]]) + TargetsFrom(nextArc[a])
    }

    /** The states one non-terminal arc away from s. */
    function Targets(s: nat): seq<nat>
      requires Valid() && IsState(s)
    {
      TargetsFrom(firstArc[s])
    }

    /** p is a walk along non-terminal arcs. */
    ghost predicate IsPath(p: seq<nat>)
      requires Valid()
    {
      && |p| > 0
      && (forall k | 0 <= k < |p| :: IsState(p[k]))
      && (forall k | 0 <= k < |p| - 1 :: p[k + 1] in Targets(p[k]))
    }

    /** s can be reached from the root along non-terminal arcs. */
    ghost predicate Reachable(s: nat)
      requires Valid()
    {
      exists p :: IsPath(p) && p[0] == root && p[|p| - 1] == s
    }
  }

  /** One step along a non-terminal arc keeps a state reachable. */
  lemma ReachableStep(f: Fsa, s: nat, t: nat)
    requires f.Valid() && f.IsState(s) && f.Reachable(s) && t in f.Targets(s)
    ensures f.Reachable(t)
  {
    var p :| f.IsPath(p) && p[0] == f.root && p[|p| - 1] == s;
    var q := p + [t];
    assert forall k | 0 <= k < |p| :: q[k] == p[k];
    assert q[|q| - 2] == s;
    assert f.IsPath(q);
  }

  /** The root is reachable (by the empty walk). */
  lemma RootReachable(f: Fsa)
    requires f.Valid()
    ensures f.Reachable(f.root)
  {
    assert f.IsPath([f.root]);
  }

  /** A set of states that holds the root and is closed under non-terminal
      arcs holds every reachable state. */
  lemma {:induction false} ClosedHoldsReachable(f: Fsa, states: seq<nat>, s: nat)
    requires f.Valid()
    requires f.root in states
    requires forall x, y | x in states && f.IsState(x) && y in f.Targets(x) :: y in states
    requires f.Reachable(s)
    ensures s in states
  {
    var p :| f.IsPath(p) && p[0] == f.root && p[|p| - 1] == s;
    PathInside(f, states, p);
  }

  lemma {:induction false} PathInside(f: Fsa, states: seq<nat>, p: seq<nat>)
    requires f.Valid()
    requires forall x, y | x in states && f.IsState(x) && y in f.Targets(x) :: y in states
    requires f.IsPath(p) && p[0] in states
    ensures p[|p| - 1] in states
  {
    if |p| > 1 {
      var q := p[..|p| - 1];
      assert forall k | 0 <= k < |q| :: q[k] == p[k];
      assert f.IsPath(q);
      PathInside(f, states, q);
      assert p[|p| - 1] in f.Targets(p[|p| - 2]);
    }
  }
}

/**
  The level-by-level traversal a `DependencySystem` runs once per phase: what one pass with
  mark `m` may do to the arena, node by node, and what it records and returns.
 */
module Traversal {
  import opened Marks
  import opened Elements
  import opened Deltas

  type Arena = map<ElementId, ElementSet>

  /** The phases of a resolve; each is a visitor order and a traversal direction. */
  datatype Phase = Satisfaction | Selection | Resolution {
    function Order(): (o: int)
      ensures 0 <= o <= 2
    {
      match this
      case Satisfaction => SATISFACTION
      case Selection => SELECTION
      case Resolution => RESOLUTION
    }

    /** The sets that must be visited before `s` in a pass of this phase. */
    function Ancestors(s: ElementSet): set<ElementId> {
      if this == Selection then s.requiring else s.required
    }

    /** The sets a visit of `s` hands on to the next level. */
    function Descendants(s: ElementSet): set<ElementId> {
      if this == Selection then s.required else s.requiring
    }
  }

  /**
    A visitor: a phase and its recomputation of one element set. The recomputation belongs to
    the phase's visitor class and is a parameter of this model.
   */
  datatype Visitor = Visitor(phase: Phase, update: ElementSet -> ElementSet)

  predicate Distinct(s: seq<ElementId>) {
    forall i, j :: 0 <= i < j < |s| ==> s[i] != s[j]
  }

  lemma NonEmptyHasMember(s: set<ElementId>)
    requires s != {}
    ensures exists x :: x in s
  {
    assert (forall x :: x !in s) ==> s == {};
  }

  /** A sequence without repetitions drawn from `k` is no longer than `k` is large. */
  lemma {:induction false} DistinctBound(s: seq<ElementId>, k: set<ElementId>)
    requires Distinct(s)
    requires forall i :: 0 <= i < |s| ==> s[i] in k
    ensures |s| <= |k|
    decreases |s|
  {
    if s != [] {
      var last := s[|s| - 1];
      var init := s[..|s| - 1];
      forall i | 0 <= i < |init| ensures init[i] in k - {last} {
        assert init[i] == s[i];
      }
      DistinctBound(init, k - {last});
    }
  }

  /** Every edge of every node names a node of the arena. */
  ghost predicate Closed(nodes: Arena) {
    forall x :: x in nodes ==> nodes[x].required <= nodes.Keys && nodes[x].requiring <= nodes.Keys
  }

  lemma ValidClosed(nodes: Arena)
    requires GraphValid(nodes)
    ensures Closed(nodes)
  {
    forall x | x in nodes ensures nodes[x].required <= nodes.Keys && nodes[x].requiring <= nodes.Keys {
      assert forall y :: y in nodes[x].required ==> y in nodes;
      assert forall y :: y in nodes[x].requiring ==> y in nodes;
    }
  }

  /**
    The recompute check `visit` makes before the ancestor check: the set changed during its
    last visit, and that visit was in an earlier phase.
   */
  predicate ChangedInEarlierPhase(s: ElementSet, order: int) {
    s.visitedMark == s.changedMark && order > VisitorOrder(s.changedMark)
  }

  /** Every ancestor of `s` carries the pass mark `m`, so `s` may be visited. */
  predicate AncestorsVisited(nodes: Arena, s: ElementSet, phase: Phase, m: int) {
    forall a :: a in phase.Ancestors(s) ==> a in nodes && nodes[a].visitedMark == m
  }

  lemma NotAllVisited(nodes: Arena, s: ElementSet, phase: Phase, m: int, a: ElementId)
    requires a in phase.Ancestors(s) && a in nodes && nodes[a].visitedMark != m
    ensures !AncestorsVisited(nodes, s, phase, m)
  {
  }

  /** Some ancestor of `s` was visited in the pass with mark `m` and changed in it. */
  predicate AncestorChanged(nodes: Arena, s: ElementSet, phase: Phase, m: int) {
    exists a :: a in phase.Ancestors(s) && a in nodes && nodes[a].visitedMark == m && nodes[a].changedMark == m
  }

  /** Why a visit flags `s` as needing an update for the visitor's order. */
  predicate VisitFlag(nodes: Arena, s: ElementSet, v: Visitor, m: int) {
    ChangedInEarlierPhase(s, v.phase.Order()) || AncestorChanged(nodes, s, v.phase, m)
  }

  function Flagged(s: ElementSet, order: int, flag: bool): (r: ElementSet)
    ensures flag ==> r.IsNeedingUpdate(order)
    ensures !flag ==> r == s
  {
    if flag then s.MarkNeedingUpdate(order) else s
  }

  /**
    A set after its visit: flagged when `flag` holds, stamped with the pass mark, and then
    recomputed by the visitor only when it needs an update for the visitor's order.
   */
  function Visited(s: ElementSet, v: Visitor, m: int, flag: bool): (r: ElementSet)
    ensures SameShape(s, r) && r.visitedMark == m
    ensures !flag && !s.IsNeedingUpdate(v.phase.Order()) ==> r == s.(visitedMark := m)
  {
    var t := Flagged(s, v.phase.Order(), flag).(visitedMark := m);
    if t.IsNeedingUpdate(v.phase.Order()) then Recompute(t, v.update(t)) else t
  }

  lemma MarkIdempotent(s: ElementSet, order: int)
    ensures s.MarkNeedingUpdate(order).MarkNeedingUpdate(order) == s.MarkNeedingUpdate(order)
  {
    assert s.needingUpdate + {order} + {order} == s.needingUpdate + {order};
  }

  /** Visiting a set that was already flagged is visiting it with the flag raised. */
  lemma VisitedFlagged(s: ElementSet, v: Visitor, m: int, flag: bool)
    ensures Visited(s.MarkNeedingUpdate(v.phase.Order()), v, m, flag) == Visited(s, v, m, true)
  {
    MarkIdempotent(s, v.phase.Order());
  }

  /** Each set was visited at most once, and none of them carried the mark when the pass began. */
  ghost predicate VisitedOnce(o: Arena, trace: seq<ElementId>, m: int) {
    Distinct(trace) && forall i :: 0 <= i < |trace| ==> trace[i] in o && o[trace[i]].visitedMark != m
  }

  /**
    Each visited set holds what its visit made of it: flagged for the reasons of `VisitFlag`,
    stamped, and recomputed only if it then needed an update.
   */
  ghost predicate VisitsApplied(o: Arena, c: Arena, trace: seq<ElementId>, v: Visitor, m: int) {
    forall x :: x in trace ==> x in o && x in c && c[x] == Visited(o[x], v, m, VisitFlag(c, o[x], v, m))
  }

  /** Each visited set's ancestors were visited before it, or carried the mark from the start. */
  ghost predicate AncestorsFirst(o: Arena, trace: seq<ElementId>, phase: Phase, m: int) {
    forall i, a :: 0 <= i < |trace| && trace[i] in o && a in phase.Ancestors(o[trace[i]]) ==>
      a in trace[..i] || (a in o && o[a].visitedMark == m)
  }

  /** A set not visited is unchanged or only flagged, and only for the reasons of `VisitFlag`. */
  ghost predicate OthersOnlyFlagged(o: Arena, c: Arena, trace: seq<ElementId>, v: Visitor, m: int) {
    forall y :: y in o && y !in trace ==> (y in c &&
      (c[y] == o[y] || (c[y] == o[y].MarkNeedingUpdate(v.phase.Order()) && VisitFlag(c, o[y], v, m))))
  }

  /**
    The arena `c` part way through a pass with mark `m` that started from `o`, having visited
    the sets of `trace` in that order; the graph's shape is unchanged.
   */
  ghost predicate Pass(o: Arena, c: Arena, trace: seq<ElementId>, v: Visitor, m: int) {
    SameGraph(o, c) && VisitedOnce(o, trace, m) && VisitsApplied(o, c, trace, v, m) &&
    AncestorsFirst(o, trace, v.phase, m) && OthersOnlyFlagged(o, c, trace, v, m)
  }

  /**
    The bookkeeping of `visit` once the sets of `trace` are visited: the pass so far, the
    delta `d` grown from `d0` by the pass's records, the leaves found and the visit count.
   */
  ghost predicate Progress(o: Arena, c: Arena, d0: seq<Change>, d: seq<Change>, trace: seq<ElementId>,
                           leaves: seq<ElementId>, count: int, v: Visitor, m: int) {
    Pass(o, c, trace, v, m) && d == d0 + Recorded(o, c, trace, v.phase) &&
    leaves == Leaves(o, trace, v.phase) && count == |trace| <= |o.Keys|
  }

  /** `c2` is `c` after the visit of `z`, which did not carry the mark and whose ancestors all do. */
  ghost predicate VisitStep(c: Arena, c2: Arena, z: ElementId, v: Visitor, m: int) {
    c2.Keys == c.Keys && z in c && c[z].visitedMark != m && AncestorsVisited(c, c[z], v.phase, m) &&
    (forall y :: y in c && y != z ==> c2[y] == c[y]) &&
    c2[z] == Visited(c[z], v, m, VisitFlag(c, c[z], v, m))
  }

  /** `c2` is `c` after `z` was skipped or deferred: at most `z` gained the flag, for a reason. */
  ghost predicate KeepStep(c: Arena, c2: Arena, z: ElementId, v: Visitor, m: int) {
    c2.Keys == c.Keys && z in c &&
    (forall y :: y in c && y != z ==> c2[y] == c[y]) &&
    (c2[z] == c[z] ||
      (c[z].visitedMark != m && c2[z] == c[z].MarkNeedingUpdate(v.phase.Order()) && VisitFlag(c, c[z], v, m)))
  }

  /**
    What a pass did to the sets it visited: each carries the pass mark, and one that was not
    flagged, for no reason of `VisitFlag` nor from before, was only stamped (its visitor
    recomputation did not run).
   */
  lemma VisitedSets(o: Arena, c: Arena, trace: seq<ElementId>, v: Visitor, m: int)
    requires Pass(o, c, trace, v, m)
    ensures forall x :: x in trace ==> x in c && c[x].visitedMark == m
    ensures forall x :: x in trace && !VisitFlag(c, o[x], v, m) && !o[x].IsNeedingUpdate(v.phase.Order()) ==>
      c[x] == o[x].(visitedMark := m)
  {
  }

  /**
    A pass whose visit count equals the number of sets (the case `visit` does not report as
    cyclic) visited every set, and every set carries the pass mark.
   */
  lemma PassComplete(o: Arena, c: Arena, trace: seq<ElementId>, v: Visitor, m: int)
    requires Pass(o, c, trace, v, m)
    requires |trace| == |o.Keys|
    ensures forall x :: x in o ==> x in trace
    ensures forall x :: x in c ==> c[x].visitedMark == m
  {
    forall x | x in o ensures x in trace {
      if x !in trace {
        forall i | 0 <= i < |trace| ensures trace[i] in o.Keys - {x} {
          assert trace[i] in trace;
        }
        DistinctBound(trace, o.Keys - {x});
        assert false;
      }
    }
    VisitedSets(o, c, trace, v, m);
  }

  /** A pass that has visited nothing yet. */
  lemma PassStart(o: Arena, v: Visitor, m: int)
    ensures Pass(o, o, [], v, m)
  {
  }

  /**
    The records the resolution visitor adds for the visited sets, in visit order: the changes
    of each set's resolved elements from the start of the pass to now. Other phases add none.
   */
  function Recorded(o: Arena, c: Arena, trace: seq<ElementId>, phase: Phase): seq<Change>
    requires forall i :: 0 <= i < |trace| ==> trace[i] in o && trace[i] in c
    decreases |trace|
  {
    if trace == [] then []
    else
      var y := trace[|trace| - 1];
      Recorded(o, c, trace[..|trace| - 1], phase) +
        (if phase == Resolution then DependencyChanges(o[y].resolved, c[y].resolved) else [])
  }

  /** The visited sets without descendants, in visit order: the leaves a pass returns. */
  function Leaves(o: Arena, trace: seq<ElementId>, phase: Phase): (r: seq<ElementId>)
    requires forall i :: 0 <= i < |trace| ==> trace[i] in o
    ensures forall x :: x in r <==> x in trace && phase.Descendants(o[x]) == {}
    ensures |r| <= |trace|
    decreases |trace|
  {
    if trace == [] then []
    else
      var y := trace[|trace| - 1];
      var init := trace[..|trace| - 1];
      assert forall x :: x in trace <==> x in init || x == y;
      Leaves(o, init, phase) + (if phase.Descendants(o[y]) == {} then [y] else [])
  }

  /** Only the resolution phase records anything. */
  lemma {:induction false} RecordedOnlyInResolution(o: Arena, c: Arena, trace: seq<ElementId>, phase: Phase)
    requires forall i :: 0 <= i < |trace| ==> trace[i] in o && trace[i] in c
    requires phase != Resolution
    ensures Recorded(o, c, trace, phase) == []
    decreases |trace|
  {
    if trace != [] {
      RecordedOnlyInResolution(o, c, trace[..|trace| - 1], phase);
    }
  }

  /**
    Every record names a visited set whose resolved elements lost (UNRESOLVED) or gained
    (RESOLVED) that element during the pass.
   */
  lemma {:induction false} RecordedSound(o: Arena, c: Arena, trace: seq<ElementId>, phase: Phase)
    requires forall i :: 0 <= i < |trace| ==> trace[i] in o && trace[i] in c
    ensures forall ch :: ch in Recorded(o, c, trace, phase) ==> exists i :: (0 <= i < |trace| &&
      (ch.kind == Unresolved ==> ch.element in o[trace[i]].resolved && ch.element !in c[trace[i]].resolved) &&
      (ch.kind == Resolved ==> ch.element in c[trace[i]].resolved && ch.element !in o[trace[i]].resolved))
    decreases |trace|
  {
    if trace != [] {
      var n := |trace| - 1;
      var y := trace[n];
      RecordedSound(o, c, trace[..n], phase);
      DeparturesSound(o[y].resolved, c[y].resolved, Unresolved);
      DeparturesSound(c[y].resolved, o[y].resolved, Resolved);
      forall ch | ch in Recorded(o, c, trace, phase) ensures exists i :: (0 <= i < |trace| &&
        (ch.kind == Unresolved ==> ch.element in o[trace[i]].resolved && ch.element !in c[trace[i]].resolved) &&
        (ch.kind == Resolved ==> ch.element in c[trace[i]].resolved && ch.element !in o[trace[i]].resolved))
      {
        if ch in Recorded(o, c, trace[..n], phase) {
          var i :| 0 <= i < n &&
            (ch.kind == Unresolved ==> ch.element in o[trace[..n][i]].resolved && ch.element !in c[trace[..n][i]].resolved) &&
            (ch.kind == Resolved ==> ch.element in c[trace[..n][i]].resolved && ch.element !in o[trace[..n][i]].resolved);
          assert trace[..n][i] == trace[i];
        } else {
          assert trace[n] == y;
        }
      }
    }
  }

  /**
    Every element a visited set lost during a resolution pass gets its UNRESOLVED record, and
    every element it gained gets its RESOLVED record.
   */
  lemma RecordedComplete(o: Arena, c: Arena, trace: seq<ElementId>, phase: Phase)
    requires forall i :: 0 <= i < |trace| ==> trace[i] in o && trace[i] in c
    requires phase == Resolution
    ensures forall i, e :: 0 <= i < |trace| && e in o[trace[i]].resolved && e !in c[trace[i]].resolved ==>
      Change(e, Unresolved) in Recorded(o, c, trace, phase)
    ensures forall i, e :: 0 <= i < |trace| && e in c[trace[i]].resolved && e !in o[trace[i]].resolved ==>
      Change(e, Resolved) in Recorded(o, c, trace, phase)
  {
    forall i, e | 0 <= i < |trace| && e in o[trace[i]].resolved && e !in c[trace[i]].resolved
      ensures Change(e, Unresolved) in Recorded(o, c, trace, phase)
    {
      RecordedIncludes(o, c, trace, phase, i);
      DependencyChangesExact(o[trace[i]].resolved, c[trace[i]].resolved, e);
    }
    forall i, e | 0 <= i < |trace| && e in c[trace[i]].resolved && e !in o[trace[i]].resolved
      ensures Change(e, Resolved) in Recorded(o, c, trace, phase)
    {
      RecordedIncludes(o, c, trace, phase, i);
      DependencyChangesExact(o[trace[i]].resolved, c[trace[i]].resolved, e);
    }
  }

  /** The records of the `i`th visited set are among the records of the pass. */
  lemma {:induction false} RecordedIncludes(o: Arena, c: Arena, trace: seq<ElementId>, phase: Phase, i: nat)
    requires forall j :: 0 <= j < |trace| ==> trace[j] in o && trace[j] in c
    requires phase == Resolution && i < |trace|
    ensures forall ch :: ch in DependencyChanges(o[trace[i]].resolved, c[trace[i]].resolved) ==> ch in Recorded(o, c, trace, phase)
    decreases |trace|
  {
    var n := |trace| - 1;
    var init := trace[..n];
    var last := DependencyChanges(o[trace[n]].resolved, c[trace[n]].resolved);
    assert Recorded(o, c, trace, phase) == Recorded(o, c, init, phase) + last;
    if i < n {
      assert init[i] == trace[i];
      RecordedIncludes(o, c, init, phase, i);
    }
  }

  /** The records depend only on the visited sets. */
  lemma {:induction false} RecordedFrame(o: Arena, c: Arena, c2: Arena, trace: seq<ElementId>, phase: Phase)
    requires forall i :: 0 <= i < |trace| ==> trace[i] in o && trace[i] in c && trace[i] in c2 && c[trace[i]] == c2[trace[i]]
    ensures Recorded(o, c, trace, phase) == Recorded(o, c2, trace, phase)
    decreases |trace|
  {
    if trace != [] {
      RecordedFrame(o, c, c2, trace[..|trace| - 1], phase);
    }
  }

  /** Whether an ancestor changed cannot depend on a set that is not an ancestor, nor on flags. */
  lemma AncestorChangedFrame(c: Arena, c2: Arena, s: ElementSet, phase: Phase, m: int, z: ElementId)
    requires c.Keys == c2.Keys
    requires forall y :: y in c && y != z ==> c2[y] == c[y]
    requires z !in phase.Ancestors(s) ||
      (z in c && c2[z].visitedMark == c[z].visitedMark && c2[z].changedMark == c[z].changedMark)
    ensures AncestorChanged(c, s, phase, m) == AncestorChanged(c2, s, phase, m)
  {
    if AncestorChanged(c, s, phase, m) {
      var a :| a in phase.Ancestors(s) && a in c && c[a].visitedMark == m && c[a].changedMark == m;
      assert c2[a].visitedMark == m && c2[a].changedMark == m;
    }
    if AncestorChanged(c2, s, phase, m) {
      var a :| a in phase.Ancestors(s) && a in c2 && c2[a].visitedMark == m && c2[a].changedMark == m;
      assert c[a].visitedMark == m && c[a].changedMark == m;
    }
  }

  /** Visiting a set that did not carry the mark keeps every earlier reason to flag. */
  lemma AncestorChangedGrows(c: Arena, c2: Arena, s: ElementSet, phase: Phase, m: int, z: ElementId)
    requires c.Keys == c2.Keys
    requires forall y :: y in c && y != z ==> c2[y] == c[y]
    requires z in c && c[z].visitedMark != m
    requires AncestorChanged(c, s, phase, m)
    ensures AncestorChanged(c2, s, phase, m)
  {
    var a :| a in phase.Ancestors(s) && a in c && c[a].visitedMark == m && c[a].changedMark == m;
    assert c2[a] == c[a];
  }

  /** A visit of `z` extends the pass by `z`, and records the change of `z`'s resolved elements. */
  lemma PassVisitStep(o: Arena, c: Arena, c2: Arena, trace: seq<ElementId>, z: ElementId, v: Visitor, m: int)
    requires Pass(o, c, trace, v, m) && VisitStep(c, c2, z, v, m)
    ensures Pass(o, c2, trace + [z], v, m)
    ensures Recorded(o, c2, trace + [z], v.phase) == Recorded(o, c, trace, v.phase) +
      (if v.phase == Resolution then DependencyChanges(o[z].resolved, c2[z].resolved) else [])
  {
    var t := trace + [z];
    VisitedOnceStep(o, c, c2, trace, z, v, m);
    VisitsAppliedStep(o, c, c2, trace, z, v, m);
    AncestorsFirstStep(o, c, c2, trace, z, v, m);
    OthersStep(o, c, c2, trace, z, v, m);
    SameGraphStep(o, c, c2, z);
    RecordedFrame(o, c, c2, trace, v.phase);
    assert t[..|t| - 1] == trace;
  }

  /** The set being visited was not visited before in this pass. */
  lemma NotYetVisited(o: Arena, c: Arena, trace: seq<ElementId>, z: ElementId, v: Visitor, m: int)
    requires Pass(o, c, trace, v, m)
    requires z in c && c[z].visitedMark != m
    ensures z !in trace && z in o && o[z].visitedMark != m && SameShape(o[z], c[z])
    ensures c[z] == o[z] || (c[z] == o[z].MarkNeedingUpdate(v.phase.Order()) && VisitFlag(c, o[z], v, m))
  {
  }

  lemma VisitedOnceStep(o: Arena, c: Arena, c2: Arena, trace: seq<ElementId>, z: ElementId, v: Visitor, m: int)
    requires Pass(o, c, trace, v, m) && VisitStep(c, c2, z, v, m)
    ensures VisitedOnce(o, trace + [z], m)
  {
    NotYetVisited(o, c, trace, z, v, m);
    var t := trace + [z];
    forall i, j | 0 <= i < j < |t| ensures t[i] != t[j] {
      if j == |trace| {
        assert t[i] == trace[i];
      } else {
        assert t[i] == trace[i] && t[j] == trace[j];
      }
    }
  }

  lemma VisitsAppliedStep(o: Arena, c: Arena, c2: Arena, trace: seq<ElementId>, z: ElementId, v: Visitor, m: int)
    requires Pass(o, c, trace, v, m) && VisitStep(c, c2, z, v, m)
    ensures VisitsApplied(o, c2, trace + [z], v, m)
  {
    NotYetVisited(o, c, trace, z, v, m);
    assert z !in v.phase.Ancestors(c[z]);
    AncestorChangedFrame(c, c2, o[z], v.phase, m, z);
    if c[z] != o[z] {
      VisitedFlagged(o[z], v, m, VisitFlag(c, c[z], v, m));
    }
    assert c2[z] == Visited(o[z], v, m, VisitFlag(c2, o[z], v, m));
    forall x | x in trace ensures c2[x] == Visited(o[x], v, m, VisitFlag(c2, o[x], v, m)) {
      AncestorsBeforeOrStale(o, c, trace, v, m, x, z);
      AncestorChangedFrame(c, c2, o[x], v.phase, m, z);
    }
  }

  lemma AncestorsFirstStep(o: Arena, c: Arena, c2: Arena, trace: seq<ElementId>, z: ElementId, v: Visitor, m: int)
    requires Pass(o, c, trace, v, m) && VisitStep(c, c2, z, v, m)
    ensures AncestorsFirst(o, trace + [z], v.phase, m)
  {
    NotYetVisited(o, c, trace, z, v, m);
    var t := trace + [z];
    forall i, a | 0 <= i < |t| && t[i] in o && a in v.phase.Ancestors(o[t[i]])
      ensures a in t[..i] || (a in o && o[a].visitedMark == m)
    {
      if i < |trace| {
        assert t[i] == trace[i] && t[..i] == trace[..i];
      } else {
        assert t[..i] == trace;
        assert a in c && c[a].visitedMark == m;
        if a !in trace {
          assert c[a].visitedMark == o[a].visitedMark;
        }
      }
    }
  }

  lemma OthersStep(o: Arena, c: Arena, c2: Arena, trace: seq<ElementId>, z: ElementId, v: Visitor, m: int)
    requires Pass(o, c, trace, v, m) && VisitStep(c, c2, z, v, m)
    ensures OthersOnlyFlagged(o, c2, trace + [z], v, m)
  {
    forall y | y in o && y !in trace + [z] && c2[y] != o[y]
      ensures c2[y] == o[y].MarkNeedingUpdate(v.phase.Order()) && VisitFlag(c2, o[y], v, m)
    {
      if AncestorChanged(c, o[y], v.phase, m) {
        AncestorChangedGrows(c, c2, o[y], v.phase, m, z);
      }
    }
  }

  /** A visited set's ancestors are not the set being visited now. */
  lemma AncestorsBeforeOrStale(o: Arena, c: Arena, trace: seq<ElementId>, v: Visitor, m: int, x: ElementId, z: ElementId)
    requires Pass(o, c, trace, v, m)
    requires x in trace
    requires z in c && c[z].visitedMark != m
    ensures z !in v.phase.Ancestors(o[x])
  {
  }

  lemma SameGraphStep(o: Arena, c: Arena, c2: Arena, z: ElementId)
    requires SameGraph(o, c)
    requires c2.Keys == c.Keys && z in c
    requires forall y :: y in c && y != z ==> c2[y] == c[y]
    requires SameShape(c[z], c2[z])
    ensures SameGraph(o, c2)
  {
  }

  /** A set that is skipped or deferred (not visited) keeps the pass as it is. */
  lemma PassKeepStep(o: Arena, c: Arena, c2: Arena, trace: seq<ElementId>, z: ElementId, v: Visitor, m: int)
    requires Pass(o, c, trace, v, m) && KeepStep(c, c2, z, v, m)
    ensures Pass(o, c2, trace, v, m)
    ensures Recorded(o, c2, trace, v.phase) == Recorded(o, c, trace, v.phase)
  {
    if c2[z] != c[z] {
      FlagStep(o, c, c2, trace, z, v, m);
    } else {
      forall y | y in c ensures c2[y] == c[y] {
      }
      assert c2 == c;
    }
  }

  lemma FlagStep(o: Arena, c: Arena, c2: Arena, trace: seq<ElementId>, z: ElementId, v: Visitor, m: int)
    requires Pass(o, c, trace, v, m) && KeepStep(c, c2, z, v, m) && c2[z] != c[z]
    ensures Pass(o, c2, trace, v, m)
    ensures Recorded(o, c2, trace, v.phase) == Recorded(o, c, trace, v.phase)
  {
    NotYetVisited(o, c, trace, z, v, m);
    MarkIdempotent(o[z], v.phase.Order());
    assert c2[z] == o[z].MarkNeedingUpdate(v.phase.Order());
    forall s: ElementSet ensures AncestorChanged(c, s, v.phase, m) == AncestorChanged(c2, s, v.phase, m) {
      AncestorChangedFrame(c, c2, s, v.phase, m, z);
    }
    SameGraphStep(o, c, c2, z);
    RecordedFrame(o, c, c2, trace, v.phase);
  }

  lemma SameGraphTransitive(a: Arena, b: Arena, c: Arena)
    requires SameGraph(a, b) && SameGraph(b, c)
    ensures SameGraph(a, c)
  {
  }

  /** The resolved elements of the walked sets, in walk order. */
  function ResolvedOf(o: Arena, trace: seq<ElementId>): seq<Element>
    requires forall i :: 0 <= i < |trace| ==> trace[i] in o
    decreases |trace|
  {
    if trace == [] then [] else ResolvedOf(o, trace[..|trace| - 1]) + o[trace[|trace| - 1]].resolved
  }

  /** An element is gathered exactly when it is resolved in one of the walked sets. */
  lemma {:induction false} ResolvedOfExact(o: Arena, trace: seq<ElementId>, e: Element)
    requires forall i :: 0 <= i < |trace| ==> trace[i] in o
    ensures e in ResolvedOf(o, trace) <==> exists i :: 0 <= i < |trace| && e in o[trace[i]].resolved
    decreases |trace|
  {
    if trace != [] {
      var n := |trace| - 1;
      ResolvedOfExact(o, trace[..n], e);
      if e in ResolvedOf(o, trace[..n]) {
        var i :| 0 <= i < n && e in o[trace[..n][i]].resolved;
        assert trace[..n][i] == trace[i];
      }
      if exists i :: 0 <= i < |trace| && e in o[trace[i]].resolved {
        var i :| 0 <= i < |trace| && e in o[trace[i]].resolved;
        if i < n {
          assert trace[..n][i] == trace[i];
        }
      }
    }
  }

  /**
    The arena `c` part way through the walk of `getResolved` with mark `m` from `o`: the sets of
    `trace` were walked in that order, each once, each holding resolved elements and each after
    every set it requires; the walk stamps the sets it walks and changes nothing else.
   */
  ghost predicate Walk(o: Arena, c: Arena, trace: seq<ElementId>, m: int) {
    SameGraph(o, c) && VisitedOnce(o, trace, m) && AncestorsFirst(o, trace, Resolution, m) &&
    (forall x :: x in trace ==> x in o && o[x].resolved != [] && c[x] == o[x].(visitedMark := m)) &&
    (forall y :: y in o && y !in trace ==> c[y] == o[y])
  }

  /** The bookkeeping of `getResolved` once the sets of `trace` are walked. */
  ghost predicate WalkProgress(o: Arena, c: Arena, trace: seq<ElementId>, resolved: seq<Element>, m: int) {
    Walk(o, c, trace, m) && resolved == ResolvedOf(o, trace) && |trace| <= |o.Keys|
  }

  lemma WalkStart(o: Arena, m: int)
    ensures Walk(o, o, [], m)
  {
  }

  /** Walking `z`, which has resolved elements and whose required sets carry the mark. */
  lemma WalkStep(o: Arena, c: Arena, trace: seq<ElementId>, z: ElementId, m: int)
    requires Walk(o, c, trace, m)
    requires z in c && c[z].visitedMark != m && c[z].resolved != [] && AncestorsVisited(c, c[z], Resolution, m)
    ensures Walk(o, c[z := c[z].(visitedMark := m)], trace + [z], m)
    ensures ResolvedOf(o, trace + [z]) == ResolvedOf(o, trace) + c[z].resolved
  {
    var t := trace + [z];
    var c2 := c[z := c[z].(visitedMark := m)];
    assert z !in trace;
    assert c[z] == o[z];
    forall i, j | 0 <= i < j < |t| ensures t[i] != t[j] {
      if j < |trace| {
        assert t[i] == trace[i] && t[j] == trace[j];
      } else {
        assert t[i] == trace[i];
      }
    }
    forall i, a | 0 <= i < |t| && t[i] in o && a in Resolution.Ancestors(o[t[i]])
      ensures a in t[..i] || (a in o && o[a].visitedMark == m)
    {
      if i < |trace| {
        assert t[i] == trace[i] && t[..i] == trace[..i];
      } else {
        assert t[..i] == trace;
        if a !in trace {
          assert c[a] == o[a];
        }
      }
    }
    assert SameGraph(o, c2);
    assert t[..|t| - 1] == trace;
  }

  /** The bookkeeping of `visit` after it visited `z`. */
  lemma ProgressVisitStep(o: Arena, c: Arena, c2: Arena, d0: seq<Change>, d: seq<Change>, d2: seq<Change>,
                          trace: seq<ElementId>, leaves: seq<ElementId>, count: int, z: ElementId, v: Visitor, m: int)
    requires Progress(o, c, d0, d, trace, leaves, count, v, m) && VisitStep(c, c2, z, v, m)
    requires d2 == d + (if v.phase == Resolution then DependencyChanges(c[z].resolved, c2[z].resolved) else [])
    ensures z in o
    ensures Progress(o, c2, d0, d2, trace + [z], leaves + (if v.phase.Descendants(o[z]) == {} then [z] else []), count + 1, v, m)
  {
    NotYetVisited(o, c, trace, z, v, m);
    PassVisitStep(o, c, c2, trace, z, v, m);
    var t := trace + [z];
    LeavesAppend(o, trace, z, v.phase);
    DistinctBound(t, o.Keys);
    AppendAssociative(d0, Recorded(o, c, trace, v.phase),
      if v.phase == Resolution then DependencyChanges(o[z].resolved, c2[z].resolved) else []);
  }

  /**
    A reshaping helper: it models nothing of the system and only regroups a sequence so that
    the proofs that call it stay cheap for the solver.
   */
  lemma AppendAssociative(a: seq<Change>, b: seq<Change>, e: seq<Change>)
    ensures (a + b) + e == a + (b + e)
  {
  }

  lemma LeavesAppend(o: Arena, trace: seq<ElementId>, z: ElementId, phase: Phase)
    requires forall i :: 0 <= i < |trace| ==> trace[i] in o
    requires z in o
    ensures Leaves(o, trace + [z], phase) == Leaves(o, trace, phase) + (if phase.Descendants(o[z]) == {} then [z] else [])
  {
    var t := trace + [z];
    assert t[..|t| - 1] == trace;
  }

  /** The bookkeeping of `visit` after it skipped or deferred `z`. */
  lemma ProgressKeepStep(o: Arena, c: Arena, c2: Arena, d0: seq<Change>, d: seq<Change>,
                         trace: seq<ElementId>, leaves: seq<ElementId>, count: int, z: ElementId, v: Visitor, m: int)
    requires Progress(o, c, d0, d, trace, leaves, count, v, m) && KeepStep(c, c2, z, v, m)
    ensures Progress(o, c2, d0, d, trace, leaves, count, v, m)
  {
    PassKeepStep(o, c, c2, trace, z, v, m);
  }

  /**
    The sets a pass hands on to its next levels: the descendants, in the pass's direction, of
    the sets it visited.
   */
  ghost function Frontier(o: Arena, trace: seq<ElementId>, phase: Phase): set<ElementId>
    decreases |trace|
  {
    if trace == [] then {}
    else Frontier(o, trace[..|trace| - 1], phase) + (if trace[|trace| - 1] in o then phase.Descendants(o[trace[|trace| - 1]]) else {})
  }

  /** The frontier holds the descendants of every set in the trace. */
  lemma {:induction false} FrontierHolds(o: Arena, trace: seq<ElementId>, phase: Phase)
    ensures forall i, x :: 0 <= i < |trace| && trace[i] in o && x in phase.Descendants(o[trace[i]]) ==> x in Frontier(o, trace, phase)
    decreases |trace|
  {
    if trace != [] {
      var init := trace[..|trace| - 1];
      FrontierHolds(o, init, phase);
      assert forall i :: 0 <= i < |init| ==> init[i] == trace[i];
    }
  }

  /** Conversely, everything in the frontier is a descendant of some set of the trace. */
  lemma {:induction false} FrontierFrom(o: Arena, trace: seq<ElementId>, phase: Phase, x: ElementId)
    requires x in Frontier(o, trace, phase)
    ensures exists i :: 0 <= i < |trace| && trace[i] in o && x in phase.Descendants(o[trace[i]])
    decreases |trace|
  {
    var init, z := trace[..|trace| - 1], trace[|trace| - 1];
    if x in Frontier(o, init, phase) {
      FrontierFrom(o, init, phase, x);
      var i :| 0 <= i < |init| && init[i] in o && x in phase.Descendants(o[init[i]]);
      assert trace[i] == init[i];
    } else {
      assert trace[|trace| - 1] == z;
    }
  }

  lemma FrontierAppend(o: Arena, trace: seq<ElementId>, z: ElementId, phase: Phase)
    requires z in o
    ensures Frontier(o, trace + [z], phase) == Frontier(o, trace, phase) + phase.Descendants(o[z])
  {
    var t := trace + [z];
    assert t[..|t| - 1] == trace;
  }

  /**
    Why a pass may end without visiting `x`: `x` carries the mark, or one of its ancestors does
    not (so the pass deferred `x`), or, in the walk of `getResolved` (`skipEmpty`), `x` has no
    resolved element.
   */
  ghost predicate Settled(o: Arena, c: Arena, x: ElementId, phase: Phase, m: int, skipEmpty: bool) {
    x in o && x in c &&
    (c[x].visitedMark == m || (skipEmpty && c[x].resolved == []) ||
      exists a :: a in phase.Ancestors(o[x]) && a in c && c[a].visitedMark != m)
  }

  /** Each set of the trace was in `start` or a descendant of a set visited before it. */
  ghost predicate HandedTrace(o: Arena, start: seq<ElementId>, trace: seq<ElementId>, phase: Phase)
    decreases |trace|
  {
    trace == [] ||
    (var init, z := trace[..|trace| - 1], trace[|trace| - 1];
     HandedTrace(o, start, init, phase) && (z in start || z in Frontier(o, init, phase)))
  }

  /** `HandedTrace` set by set: the `i`th set was handed by `start` or by the first `i` sets. */
  lemma {:induction false} HandedTraceAt(o: Arena, start: seq<ElementId>, trace: seq<ElementId>, phase: Phase)
    requires HandedTrace(o, start, trace, phase)
    ensures forall i :: 0 <= i < |trace| ==> trace[i] in start || trace[i] in Frontier(o, trace[..i], phase)
    decreases |trace|
  {
    if trace != [] {
      var init := trace[..|trace| - 1];
      HandedTraceAt(o, start, init, phase);
      forall i | 0 <= i < |trace| ensures trace[i] in start || trace[i] in Frontier(o, trace[..i], phase) {
        if i < |init| {
          assert init[i] == trace[i] && init[..i] == trace[..i];
        }
      }
    }
  }

  /** The same without the frontier: each set of the trace is in `start` or a descendant of an earlier one. */
  lemma HandedOrigin(o: Arena, start: seq<ElementId>, trace: seq<ElementId>, phase: Phase)
    requires HandedTrace(o, start, trace, phase)
    ensures forall i :: 0 <= i < |trace| ==>
      trace[i] in start || exists k :: 0 <= k < i && trace[k] in o && trace[i] in phase.Descendants(o[trace[k]])
  {
    HandedTraceAt(o, start, trace, phase);
    forall i | 0 <= i < |trace| && trace[i] !in start
      ensures exists k :: 0 <= k < i && trace[k] in o && trace[i] in phase.Descendants(o[trace[k]])
    {
      FrontierFrom(o, trace[..i], phase, trace[i]);
      var k :| 0 <= k < i && trace[..i][k] in o && trace[i] in phase.Descendants(o[trace[..i][k]]);
      assert trace[..i][k] == trace[k];
    }
  }

  /**
    Only handed sets are taken: the trace is handed (`HandedTrace`), and each `pending` set is
    in `start` or a descendant of a visited set.
   */
  ghost predicate Handed(o: Arena, start: seq<ElementId>, trace: seq<ElementId>, pending: seq<ElementId>, phase: Phase) {
    HandedTrace(o, start, trace, phase) &&
    (forall j :: 0 <= j < |pending| ==> pending[j] in start || pending[j] in Frontier(o, trace, phase))
  }

  /** Visiting `z`, the head of what is pending, and handing on some of its descendants. */
  lemma HandedVisitStep(o: Arena, start: seq<ElementId>, trace: seq<ElementId>, z: ElementId, rest: seq<ElementId>,
                        more: seq<ElementId>, phase: Phase)
    requires z in o && Handed(o, start, trace, [z] + rest, phase)
    requires forall j :: 0 <= j < |more| ==> more[j] in phase.Descendants(o[z])
    ensures Handed(o, start, trace + [z], rest + more, phase)
  {
    var t, p := trace + [z], rest + more;
    FrontierAppend(o, trace, z, phase);
    assert t[..|t| - 1] == trace && ([z] + rest)[0] == z;
    forall j | 0 <= j < |p| ensures p[j] in start || p[j] in Frontier(o, t, phase) {
      if j < |rest| {
        assert p[j] == ([z] + rest)[j + 1];
      } else {
        assert p[j] == more[j - |rest|];
      }
    }
  }

  /** Passing over `z`, the head of what is pending. */
  lemma HandedKeepStep(o: Arena, start: seq<ElementId>, trace: seq<ElementId>, z: ElementId, rest: seq<ElementId>, phase: Phase)
    requires Handed(o, start, trace, [z] + rest, phase)
    ensures Handed(o, start, trace, rest, phase)
  {
    forall j | 0 <= j < |rest| ensures rest[j] in start || rest[j] in Frontier(o, trace, phase) {
      assert rest[j] == ([z] + rest)[j + 1];
    }
  }

  /**
    Every set handed to the pass, in `start` or as a descendant of a visited set, is still
    `pending` on a later level or is settled; and conversely only handed sets are visited or
    pending (`Handed`). With nothing pending this is what the end of a pass guarantees.
   */
  ghost predicate Covered(o: Arena, c: Arena, start: seq<ElementId>, trace: seq<ElementId>, pending: seq<ElementId>,
                          phase: Phase, m: int, skipEmpty: bool) {
    (forall x :: x in start ==> x in pending || Settled(o, c, x, phase, m, skipEmpty)) &&
    (forall x :: x in Frontier(o, trace, phase) ==> x in pending || Settled(o, c, x, phase, m, skipEmpty)) &&
    Handed(o, start, trace, pending, phase)
  }

  /** An ancestor edge read backwards is a descendant edge. */
  lemma AncestorLinks(o: Arena, x: ElementId, a: ElementId, phase: Phase)
    requires Linked(o) && x in o && a in phase.Ancestors(o[x])
    ensures a in o && x in phase.Descendants(o[a])
  {
  }

  /** A set deferred for an ancestor without the mark is settled. */
  lemma DeferredSettled(o: Arena, c: Arena, x: ElementId, phase: Phase, m: int, skipEmpty: bool)
    requires x in o && x in c && phase.Ancestors(c[x]) == phase.Ancestors(o[x]) && phase.Ancestors(o[x]) <= c.Keys
    requires !AncestorsVisited(c, c[x], phase, m)
    ensures Settled(o, c, x, phase, m, skipEmpty)
  {
    var a :| a in phase.Ancestors(c[x]) && !(a in c && c[a].visitedMark == m);
    assert a in c;
  }

  /** One set after a step that stamps at most `z` with the mark and changes no other mark. */
  lemma SettledStep(o: Arena, c: Arena, c2: Arena, x: ElementId, z: ElementId, rest: seq<ElementId>,
                    phase: Phase, m: int, skipEmpty: bool)
    requires Linked(o) && c2.Keys == c.Keys && z in o && z in c && c2[z].visitedMark == m
    requires forall y :: y in c && y != z ==> c2[y].visitedMark == c[y].visitedMark
    requires skipEmpty ==> forall y :: y in c ==> c2[y].resolved == c[y].resolved
    requires x in [z] + rest || Settled(o, c, x, phase, m, skipEmpty)
    ensures x in rest || x in phase.Descendants(o[z]) || Settled(o, c2, x, phase, m, skipEmpty)
  {
    if x == z {
      assert Settled(o, c2, x, phase, m, skipEmpty);
    } else if x !in rest {
      if c[x].visitedMark == m || (skipEmpty && c[x].resolved == []) {
        assert Settled(o, c2, x, phase, m, skipEmpty);
      } else {
        var a :| a in phase.Ancestors(o[x]) && a in c && c[a].visitedMark != m;
        if a == z {
          AncestorLinks(o, x, a, phase);
        } else {
          assert Settled(o, c2, x, phase, m, skipEmpty);
        }
      }
    }
  }

  /**
    Visiting `z`, the head of what is pending, and handing its descendants on in `more` keeps
    every handed set covered.
   */
  lemma CoveredVisitStep(o: Arena, c: Arena, c2: Arena, start: seq<ElementId>, trace: seq<ElementId>, z: ElementId,
                         rest: seq<ElementId>, more: seq<ElementId>, phase: Phase, m: int, skipEmpty: bool)
    requires Linked(o) && c2.Keys == c.Keys && z in o && z in c && c2[z].visitedMark == m
    requires forall y :: y in c && y != z ==> c2[y].visitedMark == c[y].visitedMark
    requires skipEmpty ==> forall y :: y in c ==> c2[y].resolved == c[y].resolved
    requires forall d :: d in phase.Descendants(o[z]) ==> d in more
    requires forall j :: 0 <= j < |more| ==> more[j] in phase.Descendants(o[z])
    requires Covered(o, c, start, trace, [z] + rest, phase, m, skipEmpty)
    ensures Covered(o, c2, start, trace + [z], rest + more, phase, m, skipEmpty)
  {
    FrontierAppend(o, trace, z, phase);
    HandedVisitStep(o, start, trace, z, rest, more, phase);
    forall x | x in start ensures x in rest + more || Settled(o, c2, x, phase, m, skipEmpty) {
      SettledStep(o, c, c2, x, z, rest, phase, m, skipEmpty);
    }
    forall x | x in Frontier(o, trace + [z], phase) ensures x in rest + more || Settled(o, c2, x, phase, m, skipEmpty) {
      if x !in phase.Descendants(o[z]) {
        SettledStep(o, c, c2, x, z, rest, phase, m, skipEmpty);
      }
    }
  }

  /** Skipping or deferring `z`, which is settled, changes no mark and keeps every set covered. */
  lemma CoveredKeepStep(o: Arena, c: Arena, c2: Arena, start: seq<ElementId>, trace: seq<ElementId>, z: ElementId,
                        rest: seq<ElementId>, phase: Phase, m: int, skipEmpty: bool)
    requires c2.Keys == c.Keys
    requires forall y :: y in c ==> c2[y].visitedMark == c[y].visitedMark
    requires skipEmpty ==> forall y :: y in c ==> c2[y].resolved == c[y].resolved
    requires Settled(o, c, z, phase, m, skipEmpty)
    requires Covered(o, c, start, trace, [z] + rest, phase, m, skipEmpty)
    ensures Covered(o, c2, start, trace, rest, phase, m, skipEmpty)
  {
    HandedKeepStep(o, start, trace, z, rest, phase);
    forall x | Settled(o, c, x, phase, m, skipEmpty) ensures Settled(o, c2, x, phase, m, skipEmpty) {
      if !(c[x].visitedMark == m || (skipEmpty && c[x].resolved == [])) {
        var a :| a in phase.Ancestors(o[x]) && a in c && c[a].visitedMark != m;
        assert c2[a].visitedMark != m;
      }
    }
  }

  /** In a pass, a set carries the mark exactly when the pass visited it or it had the mark already. */
  lemma PassMarked(o: Arena, c: Arena, trace: seq<ElementId>, v: Visitor, m: int, x: ElementId)
    requires Pass(o, c, trace, v, m) && x in o
    ensures c[x].visitedMark == m <==> x in trace || o[x].visitedMark == m
  {
    VisitedSets(o, c, trace, v, m);
  }

  /** In a walk, a set carries the mark exactly when it was walked or had the mark already. */
  lemma WalkMarked(o: Arena, c: Arena, trace: seq<ElementId>, m: int, x: ElementId)
    requires Walk(o, c, trace, m) && x in o
    ensures c[x].visitedMark == m <==> x in trace || o[x].visitedMark == m
    ensures c[x].resolved == o[x].resolved
  {
  }

  /** A visit of `visit` keeps the handed sets covered once `z`'s descendants are handed on. */
  lemma CoveredAfterVisit(o: Arena, c: Arena, c2: Arena, start: seq<ElementId>, trace: seq<ElementId>, z: ElementId,
                          rest: seq<ElementId>, more: seq<ElementId>, v: Visitor, m: int)
    requires Linked(o) && z in o && VisitStep(c, c2, z, v, m)
    requires forall d :: d in v.phase.Descendants(o[z]) ==> d in more
    requires forall j :: 0 <= j < |more| ==> more[j] in v.phase.Descendants(o[z])
    requires Covered(o, c, start, trace, [z] + rest, v.phase, m, false)
    ensures Covered(o, c2, start, trace + [z], rest + more, v.phase, m, false)
  {
    CoveredVisitStep(o, c, c2, start, trace, z, rest, more, v.phase, m, false);
  }

  /** A skip or a deferral of `visit` keeps the handed sets covered. */
  lemma CoveredAfterKeep(o: Arena, c: Arena, c2: Arena, start: seq<ElementId>, trace: seq<ElementId>, z: ElementId,
                         rest: seq<ElementId>, v: Visitor, m: int)
    requires Closed(o) && SameGraph(o, c) && z in o && KeepStep(c, c2, z, v, m)
    requires c[z].visitedMark == m || !AncestorsVisited(c, c[z], v.phase, m)
    requires Covered(o, c, start, trace, [z] + rest, v.phase, m, false)
    ensures Covered(o, c2, start, trace, rest, v.phase, m, false)
  {
    assert SameShape(o[z], c[z]);
    if c[z].visitedMark != m {
      DeferredSettled(o, c, z, v.phase, m, false);
    }
    forall y | y in c ensures c2[y].visitedMark == c[y].visitedMark {
      if y == z && c2[z] != c[z] {
        assert c2[z] == c[z].(needingUpdate := c[z].needingUpdate + {v.phase.Order()});
      }
    }
    CoveredKeepStep(o, c, c2, start, trace, z, rest, v.phase, m, false);
  }

  /**
    Why a set handed to a finished pass was not visited by it, in terms of the arena before the
    pass: it was visited after all, it carried the mark already, it had no resolved element (in
    the walk of `getResolved`), or one of its ancestors ended the pass without the mark.
   */
  ghost predicate Explained(o: Arena, c: Arena, trace: seq<ElementId>, x: ElementId, phase: Phase, m: int, skipEmpty: bool) {
    x in o &&
    (x in trace || o[x].visitedMark == m || (skipEmpty && o[x].resolved == []) ||
      exists a :: a in phase.Ancestors(o[x]) && a in c && c[a].visitedMark != m)
  }

  /**
    The closure of a finished `visit`: every start set, and every descendant of a visited set,
    is explained; and every visited set was a start set or a descendant of one visited before.
   */
  lemma PassClosed(o: Arena, c: Arena, start: seq<ElementId>, trace: seq<ElementId>, v: Visitor, m: int)
    requires Pass(o, c, trace, v, m) && Covered(o, c, start, trace, [], v.phase, m, false)
    ensures forall x :: x in start ==> Explained(o, c, trace, x, v.phase, m, false)
    ensures forall i, d :: 0 <= i < |trace| && trace[i] in o && d in v.phase.Descendants(o[trace[i]]) ==>
      Explained(o, c, trace, d, v.phase, m, false)
    ensures forall i :: 0 <= i < |trace| ==> trace[i] in start || trace[i] in Frontier(o, trace[..i], v.phase)
  {
    HandedTraceAt(o, start, trace, v.phase);
    FrontierHolds(o, trace, v.phase);
    forall x | Settled(o, c, x, v.phase, m, false) ensures Explained(o, c, trace, x, v.phase, m, false) {
      PassMarked(o, c, trace, v, m, x);
    }
  }

  /**
    The closure of a finished walk of `getResolved`: every start set, and every set requiring a
    walked set, is explained; and every walked set was a start set or required a set walked
    before it.
   */
  lemma WalkClosed(o: Arena, c: Arena, start: seq<ElementId>, trace: seq<ElementId>, m: int)
    requires Walk(o, c, trace, m) && Covered(o, c, start, trace, [], Resolution, m, true)
    ensures forall x :: x in start ==> Explained(o, c, trace, x, Resolution, m, true)
    ensures forall i, d :: 0 <= i < |trace| && trace[i] in o && d in o[trace[i]].requiring ==>
      Explained(o, c, trace, d, Resolution, m, true)
    ensures forall i :: 0 <= i < |trace| ==> trace[i] in start || trace[i] in Frontier(o, trace[..i], Resolution)
  {
    HandedTraceAt(o, start, trace, Resolution);
    FrontierHolds(o, trace, Resolution);
    forall x | Settled(o, c, x, Resolution, m, true) ensures Explained(o, c, trace, x, Resolution, m, true) {
      WalkMarked(o, c, trace, m, x);
    }
  }

  /** The state of `visit` inside a level: its bookkeeping, and every handed set covered. */
  ghost predicate LevelState(o: Arena, c: Arena, d0: seq<Change>, d: seq<Change>, start: seq<ElementId>, trace: seq<ElementId>,
                             leaves: seq<ElementId>, count: int, pending: seq<ElementId>, v: Visitor, m: int) {
    Progress(o, c, d0, d, trace, leaves, count, v, m) && Covered(o, c, start, trace, pending, v.phase, m, false)
  }

  /** A visit inside a level, with `z`'s descendants handed on in `more`. */
  lemma LevelVisitStep(o: Arena, c: Arena, c2: Arena, d0: seq<Change>, d: seq<Change>, d2: seq<Change>, start: seq<ElementId>,
                       trace: seq<ElementId>, leaves: seq<ElementId>, count: int, z: ElementId, rest: seq<ElementId>,
                       more: seq<ElementId>, v: Visitor, m: int)
    requires Linked(o) && LevelState(o, c, d0, d, start, trace, leaves, count, [z] + rest, v, m) && VisitStep(c, c2, z, v, m)
    requires d2 == d + (if v.phase == Resolution then DependencyChanges(c[z].resolved, c2[z].resolved) else [])
    requires forall y :: y in v.phase.Descendants(c2[z]) ==> y in more
    requires forall j :: 0 <= j < |more| ==> more[j] in v.phase.Descendants(c2[z])
    ensures z in o && v.phase.Descendants(c2[z]) == v.phase.Descendants(o[z])
    ensures LevelState(o, c2, d0, d2, start, trace + [z], leaves + (if v.phase.Descendants(c2[z]) == {} then [z] else []),
                       count + 1, rest + more, v, m)
  {
    ProgressVisitStep(o, c, c2, d0, d, d2, trace, leaves, count, z, v, m);
    assert SameShape(o[z], c2[z]);
    CoveredAfterVisit(o, c, c2, start, trace, z, rest, more, v, m);
  }

  /** A skip or a deferral inside a level. */
  lemma LevelKeepStep(o: Arena, c: Arena, c2: Arena, d0: seq<Change>, d: seq<Change>, start: seq<ElementId>,
                      trace: seq<ElementId>, leaves: seq<ElementId>, count: int, z: ElementId, rest: seq<ElementId>,
                      v: Visitor, m: int)
    requires Closed(o) && z in o && LevelState(o, c, d0, d, start, trace, leaves, count, [z] + rest, v, m)
    requires KeepStep(c, c2, z, v, m) && (c[z].visitedMark == m || !AncestorsVisited(c, c[z], v.phase, m))
    ensures LevelState(o, c2, d0, d, start, trace, leaves, count, rest, v, m)
  {
    ProgressKeepStep(o, c, c2, d0, d, trace, leaves, count, z, v, m);
    CoveredAfterKeep(o, c, c2, start, trace, z, rest, v, m);
  }

  /*
    The `CoveredBegin`/`Next`/`Join`/`Done` and `LevelBegin`/`Next`/`Join`/`Done` lemmas below
    are reshaping helpers: they model nothing of the system and only rewrite the pending
    sequence of a level (`level[i..] + next`) into the form the next step expects, so that the
    level loops stay cheap for the solver.
   */

  /** A level before its first set is taken: all of it is pending. */
  lemma CoveredBegin(o: Arena, c: Arena, start: seq<ElementId>, trace: seq<ElementId>, level: seq<ElementId>,
                     phase: Phase, m: int, skipEmpty: bool)
    requires Covered(o, c, start, trace, level, phase, m, skipEmpty)
    ensures Covered(o, c, start, trace, level[0..] + [], phase, m, skipEmpty)
  {
    assert level[0..] + [] == level;
  }

  /** The `i`th set of a level taken off the front of what is pending. */
  lemma CoveredNext(o: Arena, c: Arena, start: seq<ElementId>, trace: seq<ElementId>, level: seq<ElementId>, i: nat,
                    next: seq<ElementId>, phase: Phase, m: int, skipEmpty: bool)
    requires i < |level| && Covered(o, c, start, trace, level[i..] + next, phase, m, skipEmpty)
    ensures Covered(o, c, start, trace, [level[i]] + (level[i + 1..] + next), phase, m, skipEmpty)
  {
    assert level[i..] + next == [level[i]] + (level[i + 1..] + next);
  }

  /** The sets handed on from the `i`th set of a level joined to the next level. */
  lemma CoveredJoin(o: Arena, c: Arena, start: seq<ElementId>, trace: seq<ElementId>, level: seq<ElementId>, i: nat,
                    next: seq<ElementId>, more: seq<ElementId>, phase: Phase, m: int, skipEmpty: bool)
    requires i < |level| && Covered(o, c, start, trace, (level[i + 1..] + next) + more, phase, m, skipEmpty)
    ensures Covered(o, c, start, trace, level[i + 1..] + (next + more), phase, m, skipEmpty)
  {
    assert (level[i + 1..] + next) + more == level[i + 1..] + (next + more);
  }

  /** A level once all its sets are taken: only the next level is pending. */
  lemma CoveredDone(o: Arena, c: Arena, start: seq<ElementId>, trace: seq<ElementId>, level: seq<ElementId>, i: nat,
                    next: seq<ElementId>, phase: Phase, m: int, skipEmpty: bool)
    requires i == |level| && Covered(o, c, start, trace, level[i..] + next, phase, m, skipEmpty)
    ensures Covered(o, c, start, trace, next, phase, m, skipEmpty)
  {
    assert level[i..] + next == next;
  }

  /** `CoveredBegin` inside a level of `visit`. */
  lemma LevelBegin(o: Arena, c: Arena, d0: seq<Change>, d: seq<Change>, start: seq<ElementId>, trace: seq<ElementId>,
                   leaves: seq<ElementId>, count: int, level: seq<ElementId>, v: Visitor, m: int)
    requires LevelState(o, c, d0, d, start, trace, leaves, count, level, v, m)
    ensures LevelState(o, c, d0, d, start, trace, leaves, count, level[0..] + [], v, m)
  {
    CoveredBegin(o, c, start, trace, level, v.phase, m, false);
  }

  /** `CoveredNext` inside a level of `visit`. */
  lemma LevelNext(o: Arena, c: Arena, d0: seq<Change>, d: seq<Change>, start: seq<ElementId>, trace: seq<ElementId>,
                  leaves: seq<ElementId>, count: int, level: seq<ElementId>, i: nat, next: seq<ElementId>, v: Visitor, m: int)
    requires i < |level| && LevelState(o, c, d0, d, start, trace, leaves, count, level[i..] + next, v, m)
    ensures LevelState(o, c, d0, d, start, trace, leaves, count, [level[i]] + (level[i + 1..] + next), v, m)
  {
    CoveredNext(o, c, start, trace, level, i, next, v.phase, m, false);
  }

  /** `CoveredJoin` inside a level of `visit`. */
  lemma LevelJoin(o: Arena, c: Arena, d0: seq<Change>, d: seq<Change>, start: seq<ElementId>, trace: seq<ElementId>,
                  leaves: seq<ElementId>, count: int, level: seq<ElementId>, i: nat, next: seq<ElementId>, more: seq<ElementId>,
                  v: Visitor, m: int)
    requires i < |level| && LevelState(o, c, d0, d, start, trace, leaves, count, (level[i + 1..] + next) + more, v, m)
    ensures LevelState(o, c, d0, d, start, trace, leaves, count, level[i + 1..] + (next + more), v, m)
  {
    CoveredJoin(o, c, start, trace, level, i, next, more, v.phase, m, false);
  }

  /** `CoveredDone` inside a level of `visit`. */
  lemma LevelDone(o: Arena, c: Arena, d0: seq<Change>, d: seq<Change>, start: seq<ElementId>, trace: seq<ElementId>,
                  leaves: seq<ElementId>, count: int, level: seq<ElementId>, i: nat, next: seq<ElementId>, v: Visitor, m: int)
    requires i == |level| && LevelState(o, c, d0, d, start, trace, leaves, count, level[i..] + next, v, m)
    ensures LevelState(o, c, d0, d, start, trace, leaves, count, next, v, m)
  {
    CoveredDone(o, c, start, trace, level, i, next, v.phase, m, false);
  }

  /** Walking `z` inside a level of `getResolved`, with the sets requiring it handed on in `more`. */
  lemma WalkCoveredStep(o: Arena, c: Arena, start: seq<ElementId>, trace: seq<ElementId>, z: ElementId,
                        rest: seq<ElementId>, more: seq<ElementId>, m: int)
    requires Linked(o) && SameGraph(o, c) && z in c
    requires forall y :: y in c[z].requiring ==> y in more
    requires forall j :: 0 <= j < |more| ==> more[j] in c[z].requiring
    requires Covered(o, c, start, trace, [z] + rest, Resolution, m, true)
    ensures Covered(o, c[z := c[z].(visitedMark := m)], start, trace + [z], rest + more, Resolution, m, true)
  {
    assert SameShape(o[z], c[z]);
    CoveredVisitStep(o, c, c[z := c[z].(visitedMark := m)], start, trace, z, rest, more, Resolution, m, true);
  }

  /**
    Passing over `z` inside a level of `getResolved`: it carries the mark, has no resolved
    element, or requires a set without the mark.
   */
  lemma WalkCoveredKeep(o: Arena, c: Arena, start: seq<ElementId>, trace: seq<ElementId>, z: ElementId,
                        rest: seq<ElementId>, m: int)
    requires Closed(o) && SameGraph(o, c) && z in o
    requires c[z].visitedMark == m || c[z].resolved == [] || !AncestorsVisited(c, c[z], Resolution, m)
    requires Covered(o, c, start, trace, [z] + rest, Resolution, m, true)
    ensures Covered(o, c, start, trace, rest, Resolution, m, true)
  {
    assert SameShape(o[z], c[z]);
    if !(c[z].visitedMark == m || c[z].resolved == []) {
      DeferredSettled(o, c, z, Resolution, m, true);
    }
    CoveredKeepStep(o, c, c, start, trace, z, rest, Resolution, m, true);
  }
}

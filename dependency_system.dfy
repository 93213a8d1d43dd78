/**
  The resolver orchestrator: a `DependencySystem` owns the map from element id to element set,
  drives the three-phase resolve over it (satisfaction from roots to leaves, selection from
  leaves to roots, resolution from roots to leaves), keeps the wrapping mark counter, the
  current and last resolution deltas and the running element count, and prunes dangling sets.
 */
module Dependencies {
  import opened Wrappers
  import opened Marks
  import opened Elements
  import opened Deltas
  import opened Traversal

  /** Raised by a traversal whose visit count differs from the number of element sets. */
  datatype CyclicSystemException = CyclicSystemException

  /** The injected recomputations of the three phases (the selection one embodies the policy). */
  datatype Policy = Policy(satisfy: ElementSet -> ElementSet, select: ElementSet -> ElementSet, resolve: ElementSet -> ElementSet)

  /** The elements of a set in some order: how the model iterates over a hash-based collection. */
  method Enumerate(s: set<ElementId>) returns (r: seq<ElementId>)
    ensures forall x :: x in r <==> x in s
    ensures forall i :: 0 <= i < |r| ==> r[i] in s
    ensures Distinct(r)
  {
    r := [];
    var remaining := s;
    while remaining != {}
      invariant remaining <= s
      invariant forall x :: x in r <==> x in s && x !in remaining
      invariant Distinct(r)
      decreases remaining
    {
      NonEmptyHasMember(remaining);
      var x :| x in remaining;
      r := r + [x];
      remaining := remaining - {x};
    }
  }

  class DependencySystem {
    const policy: Policy
    var elementCount: int
    var mark: int
    var lastDelta: seq<Change>
    var delta: seq<Change>
    var elementSets: map<ElementId, ElementSet>

    ghost predicate Valid()
      reads this
    {
      ValidCounter(mark) && GraphValid(elementSets)
    }

    constructor (policy: Policy)
      ensures Valid()
      ensures this.policy == policy
      ensures elementCount == 0 && mark == 0 && lastDelta == [] && delta == [] && elementSets == map[]
    {
      this.policy := policy;
      elementCount := 0;
      mark := 0;
      lastDelta := [];
      delta := [];
      elementSets := map[];
    }

    /** `getNewMark`: advances the counter and packs it with the order's low byte. */
    method GetNewMark(order: int) returns (m: int)
      requires ValidCounter(mark)
      modifies this`mark
      ensures mark == NextCounter(old(mark)) && m == MarkOf(mark, order)
      ensures 1 <= mark <= 255 && m >= 256
      ensures 0 <= order <= 255 ==> VisitorOrder(m) == order
    {
      mark := mark % 255 + 1;
      m := mark * 256 + order % 256;
      if 0 <= order <= 255 {
        VisitorOrderOfMark(mark, order);
      }
    }

    /** `getElementSet`: the set for `id`, created and stored if the id is unknown. */
    method GetElementSet(id: ElementId) returns (s: ElementSet)
      modifies this`elementSets
      ensures elementSets == WithSet(old(elementSets), id)
      ensures s == elementSets[id] && (id in old(elementSets) ==> s == old(elementSets)[id])
    {
      if id !in elementSets {
        elementSets := elementSets[id := NewElementSet(id)];
      }
      s := elementSets[id];
    }

    /** `getElement`: the element with this id and version, if any; unknown ids give None. */
    function GetElement(id: ElementId, versionId: VersionId): (r: Option<Element>)
      reads this
      ensures r.Some? <==> id in elementSets && versionId in elementSets[id].available
      ensures r.Some? ==> r.value == elementSets[id].available[versionId]
    {
      if id !in elementSets then None else elementSets[id].GetElement(versionId)
    }

    /** `discoverRoots`: every set that requires nothing, each once, in map order. */
    method DiscoverRoots() returns (roots: seq<ElementId>)
      ensures forall x :: x in roots <==> x in elementSets && elementSets[x].IsRoot()
      ensures forall i :: 0 <= i < |roots| ==> roots[i] in elementSets
      ensures Distinct(roots)
      ensures roots == [] <==> forall x :: x in elementSets ==> !elementSets[x].IsRoot()
    {
      roots := [];
      var remaining := elementSets.Keys;
      while remaining != {}
        invariant remaining <= elementSets.Keys
        invariant forall x :: x in roots <==> x in elementSets && x !in remaining && elementSets[x].IsRoot()
        invariant Distinct(roots)
        decreases remaining
      {
        NonEmptyHasMember(remaining);
        var x :| x in remaining;
        remaining := remaining - {x};
        if elementSets[x].IsRoot() {
          roots := roots + [x];
        }
      }
      if roots != [] {
        assert roots[0] in roots;
      }
    }

    /** `pruneEmptySets`: drops every set without elements that nobody requires. */
    method PruneEmptySets()
      modifies this`elementSets
      ensures elementSets == Pruned(old(elementSets))
    {
      var remaining := elementSets.Keys;
      while remaining != {}
        invariant remaining <= old(elementSets).Keys
        invariant forall x :: x in elementSets <==> x in old(elementSets) && (x in remaining || !old(elementSets)[x].IsDangling())
        invariant forall x :: x in elementSets ==> elementSets[x] == old(elementSets)[x]
        decreases remaining
      {
        NonEmptyHasMember(remaining);
        var x :| x in remaining;
        if elementSets[x].IsDangling() {
          elementSets := elementSets - {x};
        }
        remaining := remaining - {x};
      }
      ghost var pruned := Pruned(old(elementSets));
      assert forall x :: x in elementSets <==> x in pruned;
      assert elementSets.Keys == pruned.Keys;
      forall x | x in elementSets ensures elementSets[x] == pruned[x] {
      }
    }

    /** `recordElementStatusChanged`: appends one record to the current delta. */
    method RecordElementStatusChanged(element: Element, kind: ChangeKind)
      modifies this`delta
      ensures delta == old(delta) + [Change(element, kind)]
    {
      delta := delta + [Change(element, kind)];
    }

    /**
      `recordDependencyChanged`: UNRESOLVED for each old element that is not new, then RESOLVED
      for each new element that is not old.
     */
    method RecordDependencyChanged(oldResolved: seq<Element>, newResolved: seq<Element>)
      modifies this`delta
      ensures delta == old(delta) + DependencyChanges(oldResolved, newResolved)
    {
      var i := 0;
      while i < |oldResolved|
        invariant 0 <= i <= |oldResolved|
        invariant delta == old(delta) + Departures(oldResolved[..i], newResolved, Unresolved)
      {
        assert oldResolved[..i + 1][..i] == oldResolved[..i];
        if oldResolved[i] !in newResolved {
          delta := delta + [Change(oldResolved[i], Unresolved)];
        }
        i := i + 1;
      }
      assert oldResolved[..i] == oldResolved;
      ghost var afterOld := delta;
      var j := 0;
      while j < |newResolved|
        invariant 0 <= j <= |newResolved|
        invariant delta == afterOld + Departures(newResolved[..j], oldResolved, Resolved)
      {
        assert newResolved[..j + 1][..j] == newResolved[..j];
        if newResolved[j] !in oldResolved {
          delta := delta + [Change(newResolved[j], Resolved)];
        }
        j := j + 1;
      }
      assert newResolved[..j] == newResolved;
    }

    /**
      `addElement`: the element's set (created if absent) takes the element, which creates the
      sets its dependencies name and links them; the running count grows by one.
     */
    method AddElement(element: Element)
      requires Valid()
      modifies this`elementSets, this`elementCount
      ensures Valid()
      ensures elementSets == AddedTo(old(elementSets), element)
      ensures elementCount == old(elementCount) + 1
    {
      ghost var before := elementSets;
      AddToElementSet(element);
      elementCount := elementCount + 1;
      AddedToValid(before, element);
    }

    /**
      `getElementSet(id).addElement(element)`: the element's set, created if absent, takes the
      element; the sets its dependencies name are created and the set is relinked and flagged.
     */
    method AddToElementSet(element: Element)
      modifies this`elementSets
      ensures elementSets == AddedTo(old(elementSets), element)
    {
      var _ := GetElementSet(element.id);
      CreateRequiredSets(element.dependencies);
      elementSets := WithElement(elementSets, element);
    }

    /**
      The part of `ElementSet.addElement` that reaches back into the system: the set of every
      id a dependency names is looked up, and so created if absent.
     */
    method CreateRequiredSets(dependencies: seq<Dependency>)
      modifies this`elementSets
      ensures elementSets == WithRequiredSets(old(elementSets), dependencies)
    {
      var i := 0;
      while i < |dependencies|
        invariant 0 <= i <= |dependencies|
        invariant elementSets == WithRequiredSets(old(elementSets), dependencies[..i])
      {
        assert dependencies[..i + 1][..i] == dependencies[..i];
        var _ := GetElementSet(dependencies[i].requiredId);
        i := i + 1;
      }
      assert dependencies[..i] == dependencies;
    }

    /** `addElements`: adds each element in turn. */
    method AddElements(elements: seq<Element>)
      requires Valid()
      modifies this`elementSets, this`elementCount
      ensures Valid()
      ensures elementSets == AddedAll(old(elementSets), elements)
      ensures elementCount == old(elementCount) + |elements|
    {
      var i := 0;
      while i < |elements|
        invariant 0 <= i <= |elements|
        invariant Valid()
        invariant elementSets == AddedAll(old(elementSets), elements[..i])
        invariant elementCount == old(elementCount) + i
      {
        assert elements[..i + 1][..i] == elements[..i];
        AddElement(elements[i]);
        i := i + 1;
      }
      assert elements[..i] == elements;
    }

    /**
      `removeElement(id, versionId)`: an unknown id changes nothing; otherwise the version
      leaves its set, which is relinked and flagged. The running count is not decreased.
     */
    method RemoveElementVersion(id: ElementId, versionId: VersionId)
      requires Valid()
      modifies this`elementSets
      ensures Valid()
      ensures elementSets == if id in old(elementSets) then WithoutVersion(old(elementSets), id, versionId) else old(elementSets)
    {
      if id !in elementSets {
        return;
      }
      WithoutVersionValid(elementSets, id, versionId);
      elementSets := WithoutVersion(elementSets, id, versionId);
    }

    /** `removeElement(element)`: removes the element's version from the element's set. */
    method RemoveElement(element: Element)
      requires Valid()
      modifies this`elementSets
      ensures Valid()
      ensures elementSets == if element.id in old(elementSets) then WithoutVersion(old(elementSets), element.id, element.versionId) else old(elementSets)
    {
      RemoveElementVersion(element.id, element.versionId);
    }

    /** `removeElements`: removes each element in turn; none of them is found afterwards. */
    method RemoveElements(elements: seq<Element>)
      requires Valid()
      modifies this`elementSets
      ensures Valid()
      ensures elementSets.Keys == old(elementSets).Keys
      ensures elementSets == RemovedAll(old(elementSets), elements)
      ensures forall i :: 0 <= i < |elements| ==> Lookup(elementSets, elements[i].id, elements[i].versionId) == None
      ensures forall y, v :: !Names(elements, y, v) ==> Lookup(elementSets, y, v) == Lookup(old(elementSets), y, v)
    {
      var i := 0;
      while i < |elements|
        invariant 0 <= i <= |elements|
        invariant Valid()
        invariant elementSets == RemovedAll(old(elementSets), elements[..i])
      {
        assert elements[..i + 1][..i] == elements[..i];
        RemoveElement(elements[i]);
        i := i + 1;
      }
      assert elements[..i] == elements;
      forall y, v ensures Lookup(elementSets, y, v) == if Names(elements, y, v) then None else Lookup(old(elementSets), y, v) {
        RemovedAllLookup(old(elementSets), elements, y, v);
      }
      forall i | 0 <= i < |elements| ensures Names(elements, elements[i].id, elements[i].versionId) {
      }
    }

    /**
      `unresolve`: draws a resolution-order mark, then demotes each element in its set. The
      set is obtained with the creating lookup, so it always exists (and is created for an
      unknown id); `unresolve`'s null check after that lookup never fires.
     */
    method Unresolve(elements: seq<Element>)
      requires Valid()
      modifies this`elementSets, this`mark
      ensures Valid()
      ensures mark == NextCounter(old(mark))
      ensures elementSets == UnresolvedIn(old(elementSets), elements, MarkOf(mark, RESOLUTION))
    {
      var m := GetNewMark(RESOLUTION);
      var i := 0;
      while i < |elements|
        invariant 0 <= i <= |elements|
        invariant mark == NextCounter(old(mark)) && m == MarkOf(mark, RESOLUTION)
        invariant elementSets == UnresolvedIn(old(elementSets), elements[..i], m)
      {
        assert elements[..i + 1][..i] == elements[..i];
        var s := GetElementSet(elements[i].id);
        elementSets := elementSets[elements[i].id := Demote(s, elements[i], m)];
        i := i + 1;
      }
      assert elements[..i] == elements;
      UnresolvedInValid(old(elementSets), elements, m);
    }

    /**
      The checks `visit` makes before visiting the set `s0`: it is flagged when it changed in
      an earlier phase, then its ancestors are examined in some order; it is flagged for each
      visited ancestor that changed in this pass, and the examination stops at the first
      ancestor that is not yet visited. Returns whether to visit and the possibly flagged set.
     */
    method CheckAncestors(s0: ElementSet, v: Visitor, m: int) returns (shouldVisit: bool, s: ElementSet)
      requires v.phase.Ancestors(s0) <= elementSets.Keys
      ensures shouldVisit <==> AncestorsVisited(elementSets, s0, v.phase, m)
      ensures shouldVisit ==> s == Flagged(s0, v.phase.Order(), VisitFlag(elementSets, s0, v, m))
      ensures !shouldVisit ==> s == s0 || (s == s0.MarkNeedingUpdate(v.phase.Order()) && VisitFlag(elementSets, s0, v, m))
      ensures ChangedInEarlierPhase(s0, v.phase.Order()) ==> s == s0.MarkNeedingUpdate(v.phase.Order())
    {
      var order := v.phase.Order();
      s := s0;
      if ChangedInEarlierPhase(s, order) {
        s := s.MarkNeedingUpdate(order);
      }
      var ancestors := Enumerate(v.phase.Ancestors(s0));
      shouldVisit := true;
      var j := 0;
      while j < |ancestors|
        invariant 0 <= j <= |ancestors|
        invariant forall k :: 0 <= k < j ==> elementSets[ancestors[k]].visitedMark == m
        invariant s == Flagged(s0, order, ChangedInEarlierPhase(s0, order) ||
          exists k :: 0 <= k < j && elementSets[ancestors[k]].visitedMark == m && elementSets[ancestors[k]].changedMark == m)
        invariant shouldVisit
      {
        var ancestor := elementSets[ancestors[j]];
        if ancestor.visitedMark != m {
          NotAllVisited(elementSets, s0, v.phase, m, ancestors[j]);
          shouldVisit := false;
          break;
        }
        if ancestor.changedMark == m {
          MarkIdempotent(s0, order);
          s := s.MarkNeedingUpdate(order);
        }
        j := j + 1;
      }
      if s != s0 && !ChangedInEarlierPhase(s0, order) {
        var k :| 0 <= k < j && elementSets[ancestors[k]].visitedMark == m && elementSets[ancestors[k]].changedMark == m;
        assert ancestors[k] in v.phase.Ancestors(s0);
      }
      if shouldVisit {
        forall a | a in v.phase.Ancestors(s0) ensures elementSets[a].visitedMark == m {
          assert a in ancestors;
          var k :| 0 <= k < |ancestors| && ancestors[k] == a;
        }
        assert AncestorsVisited(elementSets, s0, v.phase, m);
        if AncestorChanged(elementSets, s0, v.phase, m) {
          var a :| a in v.phase.Ancestors(s0) && a in elementSets && elementSets[a].visitedMark == m && elementSets[a].changedMark == m;
          assert a in ancestors;
          var k :| 0 <= k < |ancestors| && ancestors[k] == a;
        }
      }
    }

    /**
      One element set of a `visit` level (the body of its inner loop): skipped when it already
      carries the pass mark; otherwise checked by `CheckAncestors` and either deferred, keeping
      its flags, or stamped and, when it needs an update for the visitor's order, recomputed.
      The resolution visitor records how the set's resolved elements changed.
     */
    method VisitNode(x: ElementId, v: Visitor, m: int) returns (visited: bool)
      requires x in elementSets && v.phase.Ancestors(elementSets[x]) <= elementSets.Keys
      modifies this`elementSets, this`delta
      ensures visited <==> old(elementSets)[x].visitedMark != m && AncestorsVisited(old(elementSets), old(elementSets)[x], v.phase, m)
      ensures visited ==> VisitStep(old(elementSets), elementSets, x, v, m)
      ensures !visited ==> KeepStep(old(elementSets), elementSets, x, v, m)
      ensures !visited && old(elementSets)[x].visitedMark != m && ChangedInEarlierPhase(old(elementSets)[x], v.phase.Order()) ==>
        elementSets[x] == old(elementSets)[x].MarkNeedingUpdate(v.phase.Order())
      ensures old(elementSets)[x].visitedMark == m ==> elementSets == old(elementSets)
      ensures visited && v.phase == Resolution ==>
        delta == old(delta) + DependencyChanges(old(elementSets)[x].resolved, elementSets[x].resolved)
      ensures !visited || v.phase != Resolution ==> delta == old(delta)
    {
      var s0 := elementSets[x];
      if s0.visitedMark == m {
        return false;
      }
      var shouldVisit, s := CheckAncestors(s0, v, m);
      elementSets := elementSets[x := s];
      if !shouldVisit {
        return false;
      }
      var order := v.phase.Order();
      s := s.(visitedMark := m);
      if s.IsNeedingUpdate(order) {
        var previous := s.resolved;
        s := Recompute(s, v.update(s));
        if v.phase == Resolution {
          RecordDependencyChanged(previous, s.resolved);
        }
      } else {
        UnchangedRecordsNothing(s.resolved);
      }
      elementSets := elementSets[x := s];
      visited := true;
    }

    /**
      `visit`: draws a mark for the visitor's order, then an empty start returns no leaves at
      once. Otherwise the start is the first level; each set of a level is visited as
      `VisitNode` says, and a visited set is a leaf when it has no descendants, or else hands
      its descendants to the next level; the walk ends at an empty level. The pass fails with
      the cyclic-system error when the number of visits differs from the number of sets.
     */
    method Visit(start: seq<ElementId>, v: Visitor) returns (r: Result<seq<ElementId>, CyclicSystemException>, ghost trace: seq<ElementId>)
      requires Valid()
      requires forall i :: 0 <= i < |start| ==> start[i] in elementSets
      modifies this`elementSets, this`mark, this`delta
      ensures Valid()
      ensures mark == NextCounter(old(mark))
      ensures Pass(old(elementSets), elementSets, trace, v, MarkOf(mark, v.phase.Order()))
      ensures Covered(old(elementSets), elementSets, start, trace, [], v.phase, MarkOf(mark, v.phase.Order()), false)
      ensures forall i :: 0 <= i < |trace| ==> trace[i] in start || trace[i] in Frontier(old(elementSets), trace[..i], v.phase)
      ensures delta == old(delta) + Recorded(old(elementSets), elementSets, trace, v.phase)
      ensures start == [] ==> r == Success([]) && trace == [] && elementSets == old(elementSets)
      ensures r.Failure? <==> start != [] && |trace| != |elementSets|
      ensures r.Success? ==> r.value == Leaves(old(elementSets), trace, v.phase)
    {
      var visitCounter := 0;
      var m := GetNewMark(v.phase.Order());
      trace := [];
      if start == [] {
        r := Success([]);
        return;
      }
      ValidClosed(elementSets);
      var leaves: seq<ElementId> := [];
      var level := start;
      while level != []
        invariant mark == NextCounter(old(mark)) && m == MarkOf(mark, v.phase.Order())
        invariant LevelState(old(elementSets), elementSets, old(delta), delta, start, trace, leaves, visitCounter, level, v, m)
        invariant forall i :: 0 <= i < |level| ==> level[i] in old(elementSets)
        decreases |old(elementSets).Keys| - |trace| + (if level == [] then 0 else 1)
      {
        level, leaves, visitCounter, trace := VisitLevel(level, v, m, leaves, visitCounter, old(elementSets), old(delta), start, trace);
      }
      HandedTraceAt(old(elementSets), start, trace, v.phase);
      SameGraphValid(old(elementSets), elementSets);
      if visitCounter != |elementSets| {
        r := Failure(CyclicSystemException);
      } else {
        r := Success(leaves);
      }
    }

    /**
      A `visit` as `resolve` uses it: the graph keeps its shape, the delta only grows (and only
      in the resolution phase), and the returned leaves are sets of the arena.
     */
    method VisitPhase(start: seq<ElementId>, v: Visitor) returns (r: Result<seq<ElementId>, CyclicSystemException>)
      requires Valid()
      requires forall i :: 0 <= i < |start| ==> start[i] in elementSets
      modifies this`elementSets, this`mark, this`delta
      ensures Valid()
      ensures mark == NextCounter(old(mark))
      ensures SameGraph(old(elementSets), elementSets)
      ensures |delta| >= |old(delta)| && delta[..|old(delta)|] == old(delta)
      ensures v.phase != Resolution ==> delta == old(delta)
      ensures start == [] ==> r == Success([]) && elementSets == old(elementSets) && delta == old(delta)
      ensures r.Success? ==> forall i :: 0 <= i < |r.value| ==> r.value[i] in elementSets
    {
      ghost var trace;
      r, trace := Visit(start, v);
      LeavesAreNodes(old(elementSets), elementSets, trace, v, MarkOf(mark, v.phase.Order()));
      if v.phase != Resolution {
        RecordedOnlyInResolution(old(elementSets), elementSets, trace, v.phase);
      }
      assert delta[..|old(delta)|] == old(delta);
    }

    /**
      One level of `visit`: each of its sets in order is visited as `VisitNode` says; a visited
      set without descendants is a leaf, one with descendants hands them to the next level.
     */
    method VisitLevel(level: seq<ElementId>, v: Visitor, m: int, leaves0: seq<ElementId>, count0: int,
                      ghost o: Arena, ghost d0: seq<Change>, ghost start: seq<ElementId>, ghost trace0: seq<ElementId>)
      returns (nextLevel: seq<ElementId>, leaves: seq<ElementId>, count: int, ghost trace: seq<ElementId>)
      requires Closed(o) && Linked(o)
      requires forall i :: 0 <= i < |level| ==> level[i] in o
      requires LevelState(o, elementSets, d0, delta, start, trace0, leaves0, count0, level, v, m)
      modifies this`elementSets, this`delta
      ensures LevelState(o, elementSets, d0, delta, start, trace, leaves, count, nextLevel, v, m)
      ensures forall i :: 0 <= i < |nextLevel| ==> nextLevel[i] in o
      ensures |trace0| <= |trace| && (|nextLevel| > 0 ==> |trace0| < |trace|)
    {
      nextLevel, leaves, count, trace := [], leaves0, count0, trace0;
      LevelBegin(o, elementSets, d0, delta, start, trace, leaves, count, level, v, m);
      var i := 0;
      while i < |level|
        invariant 0 <= i <= |level|
        invariant LevelState(o, elementSets, d0, delta, start, trace, leaves, count, level[i..] + nextLevel, v, m)
        invariant forall j :: 0 <= j < |nextLevel| ==> nextLevel[j] in o
        invariant |trace0| <= |trace| && (|nextLevel| > 0 ==> |trace0| < |trace|)
      {
        nextLevel, leaves, count, trace := VisitAt(level, i, nextLevel, v, m, leaves, count, o, d0, start, trace);
        i := i + 1;
      }
      LevelDone(o, elementSets, d0, delta, start, trace, leaves, count, level, i, nextLevel, v, m);
    }

    /**
      The body of the inner loop of `visit` for the `i`th set of `level`: `VisitOne` on it, and
      whatever it hands on joins the next level.
     */
    method VisitAt(level: seq<ElementId>, i: nat, next0: seq<ElementId>, v: Visitor, m: int, leaves0: seq<ElementId>,
                   count0: int, ghost o: Arena, ghost d0: seq<Change>, ghost start: seq<ElementId>, ghost trace0: seq<ElementId>)
      returns (next: seq<ElementId>, leaves: seq<ElementId>, count: int, ghost trace: seq<ElementId>)
      requires Closed(o) && Linked(o) && i < |level|
      requires forall j :: 0 <= j < |level| ==> level[j] in o
      requires forall j :: 0 <= j < |next0| ==> next0[j] in o
      requires LevelState(o, elementSets, d0, delta, start, trace0, leaves0, count0, level[i..] + next0, v, m)
      modifies this`elementSets, this`delta
      ensures LevelState(o, elementSets, d0, delta, start, trace, leaves, count, level[i + 1..] + next, v, m)
      ensures trace == trace0 ||
        (trace == trace0 + [level[i]] && forall y :: y in v.phase.Descendants(o[level[i]]) ==> y in next)
      ensures forall j :: 0 <= j < |next| ==> next[j] in o
      ensures |next0| <= |next| && |trace0| <= |trace| && (|next0| < |next| ==> |trace0| < |trace|)
    {
      LevelNext(o, elementSets, d0, delta, start, trace0, leaves0, count0, level, i, next0, v, m);
      var more;
      more, leaves, count, trace := VisitOne(level[i], v, m, leaves0, count0, o, d0, start, level[i + 1..] + next0, trace0);
      LevelJoin(o, elementSets, d0, delta, start, trace, leaves, count, level, i, next0, more, v, m);
      next := next0 + more;
    }

    /**
      `x` taken from a level of `visit`: after `VisitNode`, a visited set without descendants is
      a leaf, and one with descendants hands them all on in `more`.
     */
    method VisitOne(x: ElementId, v: Visitor, m: int, leaves0: seq<ElementId>, count0: int,
                    ghost o: Arena, ghost d0: seq<Change>, ghost start: seq<ElementId>, ghost rest: seq<ElementId>,
                    ghost trace0: seq<ElementId>)
      returns (more: seq<ElementId>, leaves: seq<ElementId>, count: int, ghost trace: seq<ElementId>)
      requires Closed(o) && Linked(o) && x in o
      requires LevelState(o, elementSets, d0, delta, start, trace0, leaves0, count0, [x] + rest, v, m)
      modifies this`elementSets, this`delta
      ensures LevelState(o, elementSets, d0, delta, start, trace, leaves, count, rest + more, v, m)
      ensures trace == trace0 || (trace == trace0 + [x] && forall y :: y in v.phase.Descendants(o[x]) ==> y in more)
      ensures forall j :: 0 <= j < |more| ==> more[j] in o
      ensures |trace0| <= |trace| && (|more| > 0 ==> |trace0| < |trace|)
    {
      more, leaves, count, trace := [], leaves0, count0, trace0;
      ghost var c, d := elementSets, delta;
      assert SameShape(o[x], elementSets[x]);
      var visited := VisitNode(x, v, m);
      if visited {
        var descendants := v.phase.Descendants(elementSets[x]);
        if descendants != {} {
          more := Enumerate(descendants);
        }
        LevelVisitStep(o, c, elementSets, d0, d, delta, start, trace, leaves, count, x, rest, more, v, m);
        if descendants == {} {
          leaves := leaves + [x];
        }
        trace := trace + [x];
        count := count + 1;
      } else {
        LevelKeepStep(o, c, elementSets, d0, d, start, trace, leaves, count, x, rest, v, m);
      }
    }

    /** The ancestor check of `getResolved`: whether every set in `ids` carries the mark `m`. */
    method AllVisited(ids: set<ElementId>, m: int) returns (b: bool)
      requires ids <= elementSets.Keys
      ensures b <==> forall a :: a in ids ==> elementSets[a].visitedMark == m
    {
      var ancestors := Enumerate(ids);
      var j := 0;
      while j < |ancestors|
        invariant 0 <= j <= |ancestors|
        invariant forall k :: 0 <= k < j ==> elementSets[ancestors[k]].visitedMark == m
      {
        var a := ancestors[j];
        if elementSets[a].visitedMark != m {
          assert a in ids && elementSets[a].visitedMark != m;
          return false;
        }
        j := j + 1;
      }
      forall a | a in ids ensures elementSets[a].visitedMark == m {
        assert a in ancestors;
        var k :| 0 <= k < |ancestors| && ancestors[k] == a;
      }
      return true;
    }

    /**
      One level of `getResolved`: each of its sets in order is skipped when already stamped or
      without resolved elements, deferred while a set it requires lacks the mark, and otherwise
      stamped, gathered, and followed by the sets that require it.
     */
    method WalkLevel(level: seq<ElementId>, m: int, resolved0: seq<Element>,
                     ghost o: Arena, ghost start: seq<ElementId>, ghost trace0: seq<ElementId>)
      returns (nextLevel: seq<ElementId>, resolved: seq<Element>, ghost trace: seq<ElementId>)
      requires Closed(o) && Linked(o)
      requires forall i :: 0 <= i < |level| ==> level[i] in o
      requires WalkProgress(o, elementSets, trace0, resolved0, m)
      requires Covered(o, elementSets, start, trace0, level, Resolution, m, true)
      modifies this`elementSets
      ensures WalkProgress(o, elementSets, trace, resolved, m)
      ensures Covered(o, elementSets, start, trace, nextLevel, Resolution, m, true)
      ensures forall i :: 0 <= i < |nextLevel| ==> nextLevel[i] in o
      ensures |trace0| <= |trace| && (|nextLevel| > 0 ==> |trace0| < |trace|)
    {
      nextLevel, resolved, trace := [], resolved0, trace0;
      CoveredBegin(o, elementSets, start, trace, level, Resolution, m, true);
      var i := 0;
      while i < |level|
        invariant 0 <= i <= |level|
        invariant WalkProgress(o, elementSets, trace, resolved, m)
        invariant Covered(o, elementSets, start, trace, level[i..] + nextLevel, Resolution, m, true)
        invariant forall j :: 0 <= j < |nextLevel| ==> nextLevel[j] in o
        invariant |trace0| <= |trace| && (|nextLevel| > 0 ==> |trace0| < |trace|)
      {
        nextLevel, resolved, trace := WalkAt(level, i, nextLevel, m, resolved, o, start, trace);
        i := i + 1;
      }
      CoveredDone(o, elementSets, start, trace, level, i, nextLevel, Resolution, m, true);
    }

    /**
      The body of the loop of `getResolved` for the `i`th set `x` of `level`: skipped when
      stamped or without resolved elements, deferred while a set it requires lacks the mark,
      otherwise stamped and gathered, with the sets requiring it joining the next level.
     */
    method WalkAt(level: seq<ElementId>, i: nat, next0: seq<ElementId>, m: int, resolved0: seq<Element>,
                  ghost o: Arena, ghost start: seq<ElementId>, ghost trace0: seq<ElementId>)
      returns (next: seq<ElementId>, resolved: seq<Element>, ghost trace: seq<ElementId>)
      requires Closed(o) && Linked(o) && i < |level|
      requires forall j :: 0 <= j < |level| ==> level[j] in o
      requires forall j :: 0 <= j < |next0| ==> next0[j] in o
      requires WalkProgress(o, elementSets, trace0, resolved0, m)
      requires Covered(o, elementSets, start, trace0, level[i..] + next0, Resolution, m, true)
      modifies this`elementSets
      ensures WalkProgress(o, elementSets, trace, resolved, m)
      ensures Covered(o, elementSets, start, trace, level[i + 1..] + next, Resolution, m, true)
      ensures trace == trace0 || (trace == trace0 + [level[i]] && forall y :: y in o[level[i]].requiring ==> y in next)
      ensures forall j :: 0 <= j < |next| ==> next[j] in o
      ensures |next0| <= |next| && |trace0| <= |trace| && (|next0| < |next| ==> |trace0| < |trace|)
    {
      var x := level[i];
      CoveredNext(o, elementSets, start, trace0, level, i, next0, Resolution, m, true);
      ghost var rest := level[i + 1..] + next0;
      var more: seq<ElementId> := [];
      resolved, trace := resolved0, trace0;
      var s := elementSets[x];
      assert SameShape(o[x], s);
      var shouldVisit := false;
      if s.visitedMark != m && s.resolved != [] {
        shouldVisit := AllVisited(s.required, m);
      }
      if shouldVisit {
        WalkStep(o, elementSets, trace, x, m);
        more := Enumerate(s.requiring);
        WalkCoveredStep(o, elementSets, start, trace, x, rest, more, m);
        elementSets := elementSets[x := s.(visitedMark := m)];
        resolved := resolved + s.resolved;
        trace := trace + [x];
        DistinctBound(trace, o.Keys);
      } else {
        WalkCoveredKeep(o, elementSets, start, trace, x, rest, m);
      }
      CoveredJoin(o, elementSets, start, trace, level, i, next0, more, Resolution, m, true);
      next := next0 + more;
    }

    /**
      `getResolved`: draws a resolution-order mark and walks from the roots towards the sets
      that require them, skipping sets already stamped and sets with no resolved element, and
      deferring a set until every set it requires carries the mark; each walked set is stamped
      and contributes its resolved elements. Nothing but visited marks changes.
     */
    method GetResolved() returns (resolved: seq<Element>, ghost roots: seq<ElementId>, ghost trace: seq<ElementId>)
      requires Valid()
      modifies this`elementSets, this`mark
      ensures Valid()
      ensures mark == NextCounter(old(mark))
      ensures forall x :: x in roots <==> x in old(elementSets) && old(elementSets)[x].IsRoot()
      ensures Walk(old(elementSets), elementSets, trace, MarkOf(mark, RESOLUTION))
      ensures Covered(old(elementSets), elementSets, roots, trace, [], Resolution, MarkOf(mark, RESOLUTION), true)
      ensures forall i :: 0 <= i < |trace| ==> trace[i] in roots || trace[i] in Frontier(old(elementSets), trace[..i], Resolution)
      ensures resolved == ResolvedOf(old(elementSets), trace)
    {
      var m := GetNewMark(RESOLUTION);
      var level := DiscoverRoots();
      roots := level;
      resolved := [];
      trace := [];
      if level == [] {
        return;
      }
      ValidClosed(elementSets);
      while level != []
        invariant mark == NextCounter(old(mark)) && m == MarkOf(mark, RESOLUTION)
        invariant WalkProgress(old(elementSets), elementSets, trace, resolved, m)
        invariant Covered(old(elementSets), elementSets, roots, trace, level, Resolution, m, true)
        invariant forall i :: 0 <= i < |level| ==> level[i] in old(elementSets)
        decreases |old(elementSets).Keys| - |trace| + (if level == [] then 0 else 1)
      {
        level, resolved, trace := WalkLevel(level, m, resolved, old(elementSets), roots, trace);
      }
      HandedTraceAt(old(elementSets), roots, trace, Resolution);
      SameGraphValid(old(elementSets), elementSets);
    }

    /**
      The three passes of `resolve`: satisfaction from the roots, selection from the satisfied
      leaves, resolution from the selected sets. The first failing pass ends them with the
      cyclic-system error; on success the leaves of the resolution pass are returned.
     */
    method Traverse() returns (r: Result<seq<ElementId>, CyclicSystemException>)
      requires Valid()
      modifies this`elementSets, this`mark, this`delta
      ensures Valid()
      ensures SameGraph(old(elementSets), elementSets)
      ensures |delta| >= |old(delta)| && delta[..|old(delta)|] == old(delta)
      ensures r.Success? ==> mark == Iterate(old(mark), 3)
      ensures (forall x :: x in old(elementSets) ==> !old(elementSets)[x].IsRoot()) ==>
        r == Success([]) && elementSets == old(elementSets) && delta == old(delta)
    {
      var roots := DiscoverRoots();
      var satisfied := VisitPhase(roots, Visitor(Satisfaction, policy.satisfy));
      if satisfied.Failure? {
        return Failure(satisfied.error);
      }
      ghost var afterSatisfaction := elementSets;
      assert roots == [] ==> satisfied.value == [] && elementSets == old(elementSets) && delta == old(delta);
      var selected := VisitPhase(satisfied.value, Visitor(Selection, policy.select));
      SameGraphTransitive(old(elementSets), afterSatisfaction, elementSets);
      if selected.Failure? {
        return Failure(selected.error);
      }
      ghost var afterSelection := elementSets;
      assert roots == [] ==> selected.value == [] && elementSets == old(elementSets) && delta == old(delta);
      r := VisitPhase(selected.value, Visitor(Resolution, policy.resolve));
      SameGraphTransitive(old(elementSets), afterSelection, elementSets);
    }

    /**
      `resolve(produceDelta)`: the passes of `Traverse`, whose resolution leaves are ignored;
      the delta accumulated so far becomes the last delta and is returned, a fresh delta
      starts, and dangling sets are pruned. A failing pass ends the resolve with the
      cyclic-system error. `produceDelta` has no effect.
     */
    method Resolve(produceDelta: bool) returns (r: Result<seq<Change>, CyclicSystemException>)
      requires Valid()
      modifies this`elementSets, this`mark, this`delta, this`lastDelta
      ensures Valid()
      ensures r.Success? ==> mark == Iterate(old(mark), 3)
      ensures r.Success? ==> r.value == lastDelta && delta == []
      ensures r.Success? ==> |lastDelta| >= |old(delta)| && lastDelta[..|old(delta)|] == old(delta)
      ensures r.Success? ==> elementSets.Keys == Pruned(old(elementSets)).Keys
      ensures r.Success? ==> forall x :: x in elementSets ==> SameShape(old(elementSets)[x], elementSets[x]) && !elementSets[x].IsDangling()
      ensures r.Failure? ==> lastDelta == old(lastDelta) && SameGraph(old(elementSets), elementSets)
      ensures (forall x :: x in old(elementSets) ==> !old(elementSets)[x].IsRoot()) ==> r == Success(old(delta))
    {
      var resolvedLeaves := Traverse();
      if resolvedLeaves.Failure? {
        r := Failure(resolvedLeaves.error);
        return;
      }
      lastDelta := delta;
      delta := [];
      ghost var visited := elementSets;
      PruneEmptySets();
      PrunedValid(visited);
      PrunedSameGraph(old(elementSets), visited);
      r := Success(lastDelta);
    }
  }

  /** `resolved` without any occurrence of `e`, in order. */
  function Without(resolved: seq<Element>, e: Element): (r: seq<Element>)
    ensures forall x :: x in r <==> x in resolved && x != e
    ensures |r| <= |resolved|
  {
    if resolved == [] then []
    else (if resolved[0] == e then [] else [resolved[0]]) + Without(resolved[1..], e)
  }

  /** What `ElementSet.unresolve(element, mark)` leaves: the element demoted, the set stamped. */
  function Demote(s: ElementSet, e: Element, m: int): (r: ElementSet)
    ensures SameShape(s, r)
  {
    s.(resolved := Without(s.resolved, e), changedMark := m)
  }

  /** The ids of a sequence of elements. */
  function Ids(elements: seq<Element>): set<ElementId> {
    set e | e in elements :: e.id
  }

  lemma IdsAppend(elements: seq<Element>, e: Element)
    ensures Ids(elements + [e]) == Ids(elements) + {e.id}
  {
    assert forall x :: x in elements + [e] <==> x in elements || x == e;
  }

  /** After `unresolve(e, m)` on its set, `e` is not resolved there and the set carries `m`. */
  ghost predicate Demoted(nodes: map<ElementId, ElementSet>, e: Element, m: int) {
    e.id in nodes && e !in nodes[e.id].resolved && nodes[e.id].changedMark == m
  }

  /** `b` keeps the shape of every node of `a` and resolves nothing that `a` did not. */
  ghost predicate OnlyDemotions(a: map<ElementId, ElementSet>, b: map<ElementId, ElementSet>) {
    forall x :: x in a ==> x in b && SameShape(a[x], b[x]) && (forall r :: r in b[x].resolved ==> r in a[x].resolved)
  }

  /** The arena after `unresolve(e, m)` on the set of `e`, created first when it is missing. */
  function DemoteIn(nodes: map<ElementId, ElementSet>, e: Element, m: int): (r: map<ElementId, ElementSet>)
    ensures r.Keys == nodes.Keys + {e.id}
    ensures Demoted(r, e, m)
  {
    var n := WithSet(nodes, e.id);
    n[e.id := Demote(n[e.id], e, m)]
  }

  /** The arena after `unresolve` demoted `elements` in order under mark `m`. */
  function UnresolvedIn(nodes: map<ElementId, ElementSet>, elements: seq<Element>, m: int): map<ElementId, ElementSet>
    decreases |elements|
  {
    if elements == [] then nodes
    else DemoteIn(UnresolvedIn(nodes, elements[..|elements| - 1], m), elements[|elements| - 1], m)
  }

  /** Demoting keeps the arena well formed: no edge and no element changes. */
  lemma DemoteInValid(nodes: map<ElementId, ElementSet>, e: Element, m: int)
    requires GraphValid(nodes)
    ensures GraphValid(DemoteIn(nodes, e, m))
  {
    var n := WithSet(nodes, e.id);
    WithSetValid(nodes, e.id);
    SameGraphValid(n, DemoteIn(nodes, e, m));
  }

  lemma {:induction false} UnresolvedInValid(nodes: map<ElementId, ElementSet>, elements: seq<Element>, m: int)
    requires GraphValid(nodes)
    ensures GraphValid(UnresolvedIn(nodes, elements, m))
    decreases |elements|
  {
    if elements != [] {
      UnresolvedInValid(nodes, elements[..|elements| - 1], m);
      DemoteInValid(UnresolvedIn(nodes, elements[..|elements| - 1], m), elements[|elements| - 1], m);
    }
  }

  /** Demoting one element changes one set only, and only by demotion. */
  lemma DemoteInFrame(nodes: map<ElementId, ElementSet>, e: Element, m: int)
    ensures OnlyDemotions(nodes, DemoteIn(nodes, e, m))
    ensures forall x :: x in nodes && x != e.id ==> DemoteIn(nodes, e, m)[x] == nodes[x]
  {
  }

  /** `unresolve` keeps every set and adds one for each unknown id it is given. */
  lemma {:induction false} UnresolvedInKeys(nodes: map<ElementId, ElementSet>, elements: seq<Element>, m: int)
    ensures UnresolvedIn(nodes, elements, m).Keys == nodes.Keys + Ids(elements)
    decreases |elements|
  {
    if elements != [] {
      var init := elements[..|elements| - 1];
      UnresolvedInKeys(nodes, init, m);
      assert elements == init + [elements[|elements| - 1]];
      IdsAppend(init, elements[|elements| - 1]);
    }
  }

  /** After `unresolve`, no given element is resolved in its set and that set carries the mark. */
  lemma {:induction false} UnresolvedInDemotes(nodes: map<ElementId, ElementSet>, elements: seq<Element>, m: int)
    ensures forall i :: 0 <= i < |elements| ==> Demoted(UnresolvedIn(nodes, elements, m), elements[i], m)
    decreases |elements|
  {
    if elements != [] {
      var init := elements[..|elements| - 1];
      var before := UnresolvedIn(nodes, init, m);
      UnresolvedInDemotes(nodes, init, m);
      DemoteInFrame(before, elements[|elements| - 1], m);
      forall i | 0 <= i < |elements| - 1 ensures Demoted(UnresolvedIn(nodes, elements, m), elements[i], m) {
        assert elements[i] == init[i];
        assert Demoted(before, init[i], m);
      }
    }
  }

  /** `unresolve` changes no graph structure and resolves nothing new. */
  lemma {:induction false} UnresolvedInOnlyDemotes(nodes: map<ElementId, ElementSet>, elements: seq<Element>, m: int)
    ensures OnlyDemotions(nodes, UnresolvedIn(nodes, elements, m))
    decreases |elements|
  {
    if elements != [] {
      var init := elements[..|elements| - 1];
      UnresolvedInOnlyDemotes(nodes, init, m);
      DemoteInFrame(UnresolvedIn(nodes, init, m), elements[|elements| - 1], m);
    }
  }

  /** `unresolve` leaves the sets of ids it is not given untouched. */
  lemma {:induction false} UnresolvedInUntouched(nodes: map<ElementId, ElementSet>, elements: seq<Element>, m: int)
    ensures forall x :: x in nodes && x !in Ids(elements) ==>
      x in UnresolvedIn(nodes, elements, m) && UnresolvedIn(nodes, elements, m)[x] == nodes[x]
    decreases |elements|
  {
    if elements != [] {
      var init, last := elements[..|elements| - 1], elements[|elements| - 1];
      assert elements == init + [last];
      IdsAppend(init, last);
      UnresolvedInUntouched(nodes, init, m);
      DemoteInFrame(UnresolvedIn(nodes, init, m), last, m);
    }
  }

  /** The leaves a pass returns are sets of the arena. */
  lemma LeavesAreNodes(o: Arena, c: Arena, trace: seq<ElementId>, v: Visitor, m: int)
    requires Pass(o, c, trace, v, m)
    ensures forall i :: 0 <= i < |Leaves(o, trace, v.phase)| ==> Leaves(o, trace, v.phase)[i] in c
  {
    forall i | 0 <= i < |Leaves(o, trace, v.phase)| ensures Leaves(o, trace, v.phase)[i] in c {
      var x := Leaves(o, trace, v.phase)[i];
      assert x in Leaves(o, trace, v.phase);
    }
  }

  /** Pruning depends only on the graph's shape, which no traversal changes. */
  lemma PrunedSameGraph(a: Arena, b: Arena)
    requires SameGraph(a, b)
    ensures Pruned(a).Keys == Pruned(b).Keys
  {
    forall x | x in a ensures a[x].IsDangling() == b[x].IsDangling() {
      assert SameShape(a[x], b[x]);
    }
  }
}

/**
  Elements, dependencies and element sets: the value objects and graph nodes that a
  `DependencySystem` orchestrates. An element set is one node of the graph: every known
  version of one element id, the sets it depends on (`required`) and the sets that depend on
  it (`requiring`), and the per-pass bookkeeping marks.

  Nodes live in an arena, a map from element id to node; edges are element ids.
 */
module Elements {
  import opened Wrappers
  import opened Marks

  /** Element ids and version ids are opaque, comparable keys. */
  type ElementId = int
  type VersionId = int

  /** One required relationship of an element. The version match rule is not modelled. */
  datatype Dependency = Dependency(requiredId: ElementId, requiredVersionId: VersionId, optional: bool)

  /** One versioned unit with its declared dependencies. */
  datatype Element = Element(id: ElementId, versionId: VersionId, dependencies: seq<Dependency>, singleton: bool)

  datatype ChangeKind = Resolved | Unresolved

  /** One record of a resolution delta. */
  datatype Change = Change(element: Element, kind: ChangeKind)

  /**
    A node of the graph. `satisfied`, `selected` and `resolved` are the results of the three
    phases; `needingUpdate` holds the orders of the phases that must recompute this node.
   */
  datatype ElementSet = ElementSet(
    id: ElementId,
    available: map<VersionId, Element>,
    satisfied: set<Element>,
    selected: set<Element>,
    resolved: seq<Element>,
    required: set<ElementId>,
    requiring: set<ElementId>,
    visitedMark: int,
    changedMark: int,
    needingUpdate: set<int>)
  {
    function ElementCount(): nat {
      |available|
    }

    function RequiringCount(): nat {
      |requiring|
    }

    /** A root depends on nothing: traversals from roots to leaves start here. */
    predicate IsRoot() {
      required == {}
    }

    /** No element and nobody depending on it: the set is pruned after a resolve. */
    predicate IsDangling() {
      ElementCount() == 0 && RequiringCount() == 0
    }

    function MarkNeedingUpdate(order: int): (s: ElementSet)
      ensures s.IsNeedingUpdate(order)
    {
      this.(needingUpdate := needingUpdate + {order})
    }

    predicate IsNeedingUpdate(order: int) {
      order in needingUpdate
    }

    function GetElement(versionId: VersionId): (r: Option<Element>)
      ensures r.Some? <==> versionId in available
      ensures r.Some? ==> r.value == available[versionId]
    {
      if versionId in available then Some(available[versionId]) else None
    }
  }

  /** The element set `getElementSet` creates for an id it does not know. */
  function NewElementSet(id: ElementId): (s: ElementSet)
    ensures s.id == id && s.IsDangling() && s.IsRoot() && s.resolved == []
  {
    ElementSet(id, map[], {}, {}, [], {}, {}, 0, 0, {})
  }

  /** The ids the elements of `available` depend on. */
  function DependencyIds(available: map<VersionId, Element>): set<ElementId> {
    set v, d | v in available && d in available[v].dependencies :: d.requiredId
  }

  /** A node requires exactly the ids its elements depend on. */
  predicate ExactEdges(s: ElementSet) {
    s.required == DependencyIds(s.available)
  }

  /** Fields a traversal never changes: identity, elements and edges. */
  predicate SameShape(s: ElementSet, t: ElementSet) {
    s.id == t.id && s.available == t.available && s.required == t.required && s.requiring == t.requiring
  }

  predicate SameGraph(a: map<ElementId, ElementSet>, b: map<ElementId, ElementSet>) {
    a.Keys == b.Keys && forall x :: x in a ==> SameShape(a[x], b[x])
  }

  /** Every node is stored under its id, every element under its version. */
  ghost predicate Keyed(nodes: map<ElementId, ElementSet>) {
    (forall x :: x in nodes ==> nodes[x].id == x) &&
    (forall x, v :: x in nodes && v in nodes[x].available ==>
      nodes[x].available[v].id == x && nodes[x].available[v].versionId == v)
  }

  /** Every edge leads to a node of the arena and is recorded at both of its ends. */
  ghost predicate Linked(nodes: map<ElementId, ElementSet>) {
    (forall x, y :: x in nodes && y in nodes[x].required ==> y in nodes && x in nodes[y].requiring) &&
    (forall x, y :: x in nodes && y in nodes[x].requiring ==> y in nodes && x in nodes[y].required)
  }

  /**
    The arena is well formed: it is keyed and linked, and every node requires exactly the ids
    its elements depend on.
   */
  ghost predicate GraphValid(nodes: map<ElementId, ElementSet>) {
    Keyed(nodes) && Linked(nodes) && (forall x :: x in nodes ==> ExactEdges(nodes[x]))
  }

  lemma SameGraphValid(a: map<ElementId, ElementSet>, b: map<ElementId, ElementSet>)
    requires GraphValid(a) && SameGraph(a, b)
    ensures GraphValid(b)
  {
    SameGraphKeyed(a, b);
    SameGraphLinked(a, b);
    forall x | x in b ensures ExactEdges(b[x]) {
      assert SameShape(a[x], b[x]);
    }
  }

  lemma SameGraphKeyed(a: map<ElementId, ElementSet>, b: map<ElementId, ElementSet>)
    requires Keyed(a) && SameGraph(a, b)
    ensures Keyed(b)
  {
    forall x | x in b ensures b[x].id == x {
      assert SameShape(a[x], b[x]);
    }
    forall x, v | x in b && v in b[x].available
      ensures b[x].available[v].id == x && b[x].available[v].versionId == v
    {
      assert SameShape(a[x], b[x]);
    }
  }

  lemma SameGraphLinked(a: map<ElementId, ElementSet>, b: map<ElementId, ElementSet>)
    requires Linked(a) && SameGraph(a, b)
    ensures Linked(b)
  {
    forall x, y | x in b && y in b[x].required ensures y in b && x in b[y].requiring {
      assert SameShape(a[x], b[x]);
      assert y in a && x in a[y].requiring;
      assert SameShape(a[y], b[y]);
    }
    forall x, y | x in b && y in b[x].requiring ensures y in b && x in b[y].required {
      assert SameShape(a[x], b[x]);
      assert y in a && x in a[y].required;
      assert SameShape(a[y], b[y]);
    }
  }

  /**
    The node a phase's recomputation leaves behind: it takes the phase results, the changed
    mark and the needing-update flags from the update, and keeps identity, elements, edges and
    the visited mark.
   */
  function Recompute(s: ElementSet, u: ElementSet): (r: ElementSet)
    ensures SameShape(s, r) && r.visitedMark == s.visitedMark
  {
    s.(satisfied := u.satisfied, selected := u.selected, resolved := u.resolved,
       changedMark := u.changedMark, needingUpdate := u.needingUpdate)
  }

  /**
    The arena after the elements of node `x` became `available`: `x` requires the ids those
    elements depend on, the back-references of the other nodes follow, and `x` is flagged for
    the satisfaction phase.
   */
  function Relink(nodes: map<ElementId, ElementSet>, x: ElementId, available: map<VersionId, Element>): (r: map<ElementId, ElementSet>)
    requires x in nodes
    ensures r.Keys == nodes.Keys
    ensures r[x].available == available && r[x].required == DependencyIds(available)
    ensures r[x].IsNeedingUpdate(SATISFACTION)
  {
    var req := DependencyIds(available);
    map y | y in nodes ::
      var n := if y == x then nodes[x].(available := available, required := req,
                                         needingUpdate := nodes[x].needingUpdate + {SATISFACTION})
               else nodes[y];
      n.(requiring := if y in req then n.requiring + {x} else n.requiring - {x})
  }

  /** The fields of one node after relinking. */
  lemma RelinkAt(nodes: map<ElementId, ElementSet>, x: ElementId, available: map<VersionId, Element>, y: ElementId)
    requires x in nodes && y in nodes
    ensures var r := Relink(nodes, x, available);
      r[y].id == nodes[y].id &&
      r[y].available == (if y == x then available else nodes[y].available) &&
      r[y].required == (if y == x then DependencyIds(available) else nodes[y].required) &&
      r[y].requiring == (if y in DependencyIds(available) then nodes[y].requiring + {x} else nodes[y].requiring - {x})
  {
  }

  /** Relinking changes the elements of node `x` only. */
  lemma RelinkKeepsOthers(nodes: map<ElementId, ElementSet>, x: ElementId, available: map<VersionId, Element>)
    requires x in nodes
    ensures forall y :: y in nodes && y != x ==> Relink(nodes, x, available)[y].available == nodes[y].available
  {
    forall y | y in nodes && y != x
      ensures Relink(nodes, x, available)[y].available == nodes[y].available
    {
      RelinkAt(nodes, x, available, y);
    }
  }

  /** Relinking keeps the arena well formed when every new dependency target exists. */
  lemma RelinkValid(nodes: map<ElementId, ElementSet>, x: ElementId, available: map<VersionId, Element>)
    requires GraphValid(nodes) && x in nodes
    requires forall v :: v in available ==> available[v].id == x && available[v].versionId == v
    requires DependencyIds(available) <= nodes.Keys
    ensures GraphValid(Relink(nodes, x, available))
  {
    var r := Relink(nodes, x, available);
    RelinkKeyed(nodes, x, available);
    RelinkLinked(nodes, x, available);
    forall y | y in r ensures ExactEdges(r[y]) {
      RelinkAt(nodes, x, available, y);
    }
  }

  lemma RelinkKeyed(nodes: map<ElementId, ElementSet>, x: ElementId, available: map<VersionId, Element>)
    requires Keyed(nodes) && x in nodes
    requires forall v :: v in available ==> available[v].id == x && available[v].versionId == v
    ensures Keyed(Relink(nodes, x, available))
  {
    var r := Relink(nodes, x, available);
    forall y | y in r ensures r[y].id == y {
      RelinkAt(nodes, x, available, y);
    }
    forall y, v | y in r && v in r[y].available
      ensures r[y].available[v].id == y && r[y].available[v].versionId == v
    {
      RelinkAt(nodes, x, available, y);
    }
  }

  lemma RelinkLinked(nodes: map<ElementId, ElementSet>, x: ElementId, available: map<VersionId, Element>)
    requires Linked(nodes) && x in nodes
    requires DependencyIds(available) <= nodes.Keys
    ensures Linked(Relink(nodes, x, available))
  {
    var r := Relink(nodes, x, available);
    forall a, b | a in r && b in r[a].required
      ensures b in r && a in r[b].requiring
    {
      RelinkForward(nodes, x, available, a, b);
    }
    forall a, b | a in r && b in r[a].requiring
      ensures b in r && a in r[b].required
    {
      RelinkBackward(nodes, x, available, a, b);
    }
  }

  lemma RelinkForward(nodes: map<ElementId, ElementSet>, x: ElementId, available: map<VersionId, Element>, a: ElementId, b: ElementId)
    requires Linked(nodes) && x in nodes
    requires DependencyIds(available) <= nodes.Keys
    requires a in nodes && b in Relink(nodes, x, available)[a].required
    ensures b in nodes && a in Relink(nodes, x, available)[b].requiring
  {
    RelinkAt(nodes, x, available, a);
    if a != x {
      assert b in nodes[a].required;
      assert b in nodes && a in nodes[b].requiring;
    }
    RelinkAt(nodes, x, available, b);
  }

  lemma RelinkBackward(nodes: map<ElementId, ElementSet>, x: ElementId, available: map<VersionId, Element>, a: ElementId, b: ElementId)
    requires Linked(nodes) && x in nodes
    requires a in nodes && b in Relink(nodes, x, available)[a].requiring
    ensures b in nodes && a in Relink(nodes, x, available)[b].required
  {
    RelinkAt(nodes, x, available, a);
    if b != x {
      assert b in nodes[a].requiring;
      assert b in nodes && a in nodes[b].required;
      RelinkAt(nodes, x, available, b);
    }
  }

  lemma DependencyIdsShrink(available: map<VersionId, Element>, v: VersionId)
    ensures DependencyIds(available - {v}) <= DependencyIds(available)
  {
  }

  lemma DependencyIdsOfPut(available: map<VersionId, Element>, e: Element)
    ensures DependencyIds(available[e.versionId := e]) <= DependencyIds(available) + (set d | d in e.dependencies :: d.requiredId)
  {
  }

  /** The ids a sequence of dependencies names. */
  function Targets(dependencies: seq<Dependency>): set<ElementId> {
    set d | d in dependencies :: d.requiredId
  }

  /**
    The arena after `ElementSet.addElement(e)`: `e` is available in its own set under its
    version (replacing an element of the same version), and that set is relinked and flagged.
   */
  function WithElement(nodes: map<ElementId, ElementSet>, e: Element): (r: map<ElementId, ElementSet>)
    requires e.id in nodes
    ensures r.Keys == nodes.Keys
    ensures r[e.id].available == nodes[e.id].available[e.versionId := e]
    ensures r[e.id].IsNeedingUpdate(SATISFACTION)
    ensures forall y :: y in nodes && y != e.id ==> r[y].available == nodes[y].available
  {
    var available := nodes[e.id].available[e.versionId := e];
    RelinkKeepsOthers(nodes, e.id, available);
    Relink(nodes, e.id, available)
  }

  /**
    The arena after `ElementSet.removeElement` of one version: that version is no longer
    available in set `id`, which is relinked and flagged.
   */
  function WithoutVersion(nodes: map<ElementId, ElementSet>, id: ElementId, versionId: VersionId): (r: map<ElementId, ElementSet>)
    requires id in nodes
    ensures r.Keys == nodes.Keys
    ensures r[id].available == nodes[id].available - {versionId}
    ensures r[id].IsNeedingUpdate(SATISFACTION)
    ensures forall y :: y in nodes && y != id ==> r[y].available == nodes[y].available
  {
    var available := nodes[id].available - {versionId};
    RelinkKeepsOthers(nodes, id, available);
    Relink(nodes, id, available)
  }

  /** Adding an element keeps the arena well formed when the sets it requires exist. */
  lemma WithElementValid(nodes: map<ElementId, ElementSet>, e: Element)
    requires GraphValid(nodes) && e.id in nodes
    requires Targets(e.dependencies) <= nodes.Keys
    ensures GraphValid(WithElement(nodes, e))
  {
    var x := e.id;
    var available := nodes[x].available[e.versionId := e];
    DependencyIdsOfPut(nodes[x].available, e);
    assert ExactEdges(nodes[x]);
    forall y | y in nodes[x].required ensures y in nodes {
    }
    assert Keyed(nodes);
    RelinkValid(nodes, x, available);
  }

  /** Removing a version keeps the arena well formed. */
  lemma WithoutVersionValid(nodes: map<ElementId, ElementSet>, id: ElementId, versionId: VersionId)
    requires GraphValid(nodes) && id in nodes
    ensures GraphValid(WithoutVersion(nodes, id, versionId))
  {
    var available := nodes[id].available - {versionId};
    DependencyIdsShrink(nodes[id].available, versionId);
    assert ExactEdges(nodes[id]);
    forall y | y in nodes[id].required ensures y in nodes {
    }
    assert Keyed(nodes);
    RelinkValid(nodes, id, available);
  }

  /** The arena after `getElementSet(id)`: an empty set is created when `id` has none. */
  function WithSet(nodes: map<ElementId, ElementSet>, id: ElementId): (r: map<ElementId, ElementSet>)
    ensures r.Keys == nodes.Keys + {id}
    ensures id in nodes ==> r == nodes
    ensures id !in nodes ==> r == nodes[id := NewElementSet(id)]
  {
    if id in nodes then nodes else nodes[id := NewElementSet(id)]
  }

  /** The arena after `getElementSet` was called for the id of each dependency, in order. */
  function WithRequiredSets(nodes: map<ElementId, ElementSet>, dependencies: seq<Dependency>): (r: map<ElementId, ElementSet>)
    ensures r.Keys == nodes.Keys + Targets(dependencies)
    decreases |dependencies|
  {
    if dependencies == [] then nodes
    else
      var init, last := dependencies[..|dependencies| - 1], dependencies[|dependencies| - 1];
      TargetsAppend(init, last);
      assert dependencies == init + [last];
      WithSet(WithRequiredSets(nodes, init), last.requiredId)
  }

  lemma TargetsAppend(dependencies: seq<Dependency>, d: Dependency)
    ensures Targets(dependencies + [d]) == Targets(dependencies) + {d.requiredId}
  {
    assert forall x :: x in dependencies + [d] <==> x in dependencies || x == d;
  }

  /** Creating an empty set keeps the arena well formed: the new set has no edges. */
  lemma WithSetValid(nodes: map<ElementId, ElementSet>, id: ElementId)
    requires GraphValid(nodes)
    ensures GraphValid(WithSet(nodes, id))
  {
    if id !in nodes {
      AddIsolatedValid(nodes, id);
    }
  }

  lemma AddIsolatedValid(nodes: map<ElementId, ElementSet>, id: ElementId)
    requires GraphValid(nodes) && id !in nodes
    ensures GraphValid(nodes[id := NewElementSet(id)])
  {
    var r := nodes[id := NewElementSet(id)];
    assert DependencyIds(map[]) == {};
    forall x, y | x in r && y in r[x].required ensures y in r && x in r[y].requiring {
      assert x in nodes && y in nodes[x].required;
    }
    forall x, y | x in r && y in r[x].requiring ensures y in r && x in r[y].required {
      assert x in nodes && y in nodes[x].requiring;
    }
    assert Linked(r);
  }

  lemma {:induction false} WithRequiredSetsValid(nodes: map<ElementId, ElementSet>, dependencies: seq<Dependency>)
    requires GraphValid(nodes)
    ensures GraphValid(WithRequiredSets(nodes, dependencies))
    decreases |dependencies|
  {
    if dependencies != [] {
      var init, last := dependencies[..|dependencies| - 1], dependencies[|dependencies| - 1];
      WithRequiredSetsValid(nodes, init);
      WithSetValid(WithRequiredSets(nodes, init), last.requiredId);
    }
  }

  /** Creating sets changes no answer of `getElement`: a new set has no elements. */
  lemma WithSetLookup(nodes: map<ElementId, ElementSet>, id: ElementId)
    ensures forall y, v :: Lookup(WithSet(nodes, id), y, v) == Lookup(nodes, y, v)
  {
  }

  lemma {:induction false} WithRequiredSetsLookup(nodes: map<ElementId, ElementSet>, dependencies: seq<Dependency>)
    ensures forall y, v :: Lookup(WithRequiredSets(nodes, dependencies), y, v) == Lookup(nodes, y, v)
    decreases |dependencies|
  {
    if dependencies != [] {
      var init, last := dependencies[..|dependencies| - 1], dependencies[|dependencies| - 1];
      WithRequiredSetsLookup(nodes, init);
      WithSetLookup(WithRequiredSets(nodes, init), last.requiredId);
    }
  }

  /** `getElement` on an arena: the element of that id and version, if there is one. */
  function Lookup(nodes: map<ElementId, ElementSet>, id: ElementId, versionId: VersionId): (r: Option<Element>)
    ensures r.Some? <==> id in nodes && versionId in nodes[id].available
    ensures r.Some? && Keyed(nodes) ==> r.value.id == id && r.value.versionId == versionId
  {
    if id !in nodes then None else nodes[id].GetElement(versionId)
  }

  /**
    The arena after `addElement(e)`: the set of `e` and the sets its dependencies name exist,
    and `e` is available in its set.
   */
  function AddedTo(nodes: map<ElementId, ElementSet>, e: Element): (r: map<ElementId, ElementSet>)
    ensures r.Keys == nodes.Keys + {e.id} + Targets(e.dependencies)
  {
    WithElement(WithRequiredSets(WithSet(nodes, e.id), e.dependencies), e)
  }

  /** Adding an element keeps the arena well formed. */
  lemma AddedToValid(nodes: map<ElementId, ElementSet>, e: Element)
    requires GraphValid(nodes)
    ensures GraphValid(AddedTo(nodes, e))
  {
    WithSetValid(nodes, e.id);
    WithRequiredSetsValid(WithSet(nodes, e.id), e.dependencies);
    WithElementValid(WithRequiredSets(WithSet(nodes, e.id), e.dependencies), e);
  }

  /**
    After `addElement(e)`, `getElement` finds `e` under its id and version, answers as before
    for every other id and version, and the sets `e` requires exist.
   */
  lemma AddedToLookup(nodes: map<ElementId, ElementSet>, e: Element)
    ensures Lookup(AddedTo(nodes, e), e.id, e.versionId) == Some(e)
    ensures forall y, v :: y != e.id || v != e.versionId ==> Lookup(AddedTo(nodes, e), y, v) == Lookup(nodes, y, v)
    ensures AddedTo(nodes, e).Keys == nodes.Keys + {e.id} + Targets(e.dependencies)
  {
    var withSets := WithRequiredSets(WithSet(nodes, e.id), e.dependencies);
    WithSetLookup(nodes, e.id);
    WithRequiredSetsLookup(WithSet(nodes, e.id), e.dependencies);
    WithElementLookup(withSets, e);
  }

  lemma WithElementLookup(nodes: map<ElementId, ElementSet>, e: Element)
    requires e.id in nodes
    ensures Lookup(WithElement(nodes, e), e.id, e.versionId) == Some(e)
    ensures forall y, v :: y != e.id || v != e.versionId ==> Lookup(WithElement(nodes, e), y, v) == Lookup(nodes, y, v)
  {
  }

  /** The arena after `addElements`: each element added in turn. */
  function AddedAll(nodes: map<ElementId, ElementSet>, elements: seq<Element>): (r: map<ElementId, ElementSet>)
    ensures nodes.Keys <= r.Keys
    decreases |elements|
  {
    if elements == [] then nodes
    else AddedTo(AddedAll(nodes, elements[..|elements| - 1]), elements[|elements| - 1])
  }

  /** After `addElements`, every added element's id names a set of the arena. */
  lemma {:induction false} AddedAllKeys(nodes: map<ElementId, ElementSet>, elements: seq<Element>)
    ensures forall e :: e in elements ==> e.id in AddedAll(nodes, elements)
    decreases |elements|
  {
    if elements != [] {
      var init, last := elements[..|elements| - 1], elements[|elements| - 1];
      AddedAllKeys(nodes, init);
      var before := AddedAll(nodes, init);
      var after := AddedTo(before, last);
      assert AddedAll(nodes, elements) == after;
    }
  }

  lemma {:induction false} AddedAllValid(nodes: map<ElementId, ElementSet>, elements: seq<Element>)
    requires GraphValid(nodes)
    ensures GraphValid(AddedAll(nodes, elements))
    decreases |elements|
  {
    if elements != [] {
      AddedAllValid(nodes, elements[..|elements| - 1]);
      AddedToValid(AddedAll(nodes, elements[..|elements| - 1]), elements[|elements| - 1]);
    }
  }

  /**
    After `removeElement(id, versionId)`, `getElement` finds nothing under that id and version
    and answers as before for every other id and version.
   */
  lemma WithoutVersionLookup(nodes: map<ElementId, ElementSet>, id: ElementId, versionId: VersionId)
    requires id in nodes
    ensures Lookup(WithoutVersion(nodes, id, versionId), id, versionId) == None
    ensures forall y, v :: y != id || v != versionId ==> Lookup(WithoutVersion(nodes, id, versionId), y, v) == Lookup(nodes, y, v)
  {
  }

  /** The arena after `removeElement(element)`: an unknown id changes nothing. */
  function Removed(nodes: map<ElementId, ElementSet>, e: Element): (r: map<ElementId, ElementSet>)
    ensures r.Keys == nodes.Keys
  {
    if e.id in nodes then WithoutVersion(nodes, e.id, e.versionId) else nodes
  }

  /** The arena after `removeElements`: each element removed in turn. */
  function RemovedAll(nodes: map<ElementId, ElementSet>, elements: seq<Element>): (r: map<ElementId, ElementSet>)
    ensures r.Keys == nodes.Keys
    decreases |elements|
  {
    if elements == [] then nodes
    else Removed(RemovedAll(nodes, elements[..|elements| - 1]), elements[|elements| - 1])
  }

  /** Some element of `elements` has id `y` and version `v`. */
  predicate Names(elements: seq<Element>, y: ElementId, v: VersionId) {
    exists i :: 0 <= i < |elements| && elements[i].id == y && elements[i].versionId == v
  }

  /**
    After `removeElements`, `getElement` finds nothing under a removed id and version, and
    finds under every other pair what it found before.
   */
  lemma {:induction false} RemovedAllLookup(nodes: map<ElementId, ElementSet>, elements: seq<Element>, y: ElementId, v: VersionId)
    ensures Lookup(RemovedAll(nodes, elements), y, v) == if Names(elements, y, v) then None else Lookup(nodes, y, v)
    decreases |elements|
  {
    if elements != [] {
      var init, e := elements[..|elements| - 1], elements[|elements| - 1];
      var before := RemovedAll(nodes, init);
      RemovedAllLookup(nodes, init, y, v);
      if e.id in before {
        WithoutVersionLookup(before, e.id, e.versionId);
      }
      if Names(init, y, v) {
        var i :| 0 <= i < |init| && init[i].id == y && init[i].versionId == v;
        assert elements[i] == init[i];
      }
      if Names(elements, y, v) && !(e.id == y && e.versionId == v) {
        var i :| 0 <= i < |elements| && elements[i].id == y && elements[i].versionId == v;
        assert i < |init| && init[i] == elements[i];
      }
      if e.id == y && e.versionId == v {
        assert Names(elements, y, v) by { assert elements[|elements| - 1] == e; }
      }
    }
  }

  /** The arena without its dangling nodes: what `pruneEmptySets` leaves. */
  function Pruned(nodes: map<ElementId, ElementSet>): (r: map<ElementId, ElementSet>)
    ensures forall x :: x in r <==> x in nodes && !nodes[x].IsDangling()
    ensures forall x :: x in r ==> r[x] == nodes[x]
  {
    map x | x in nodes && !nodes[x].IsDangling() :: nodes[x]
  }

  lemma RequiringNodeHasElements(available: map<VersionId, Element>, y: ElementId)
    requires y in DependencyIds(available)
    ensures |available| > 0
  {
    var v, d :| v in available && d in available[v].dependencies && d.requiredId == y;
    assert v in available.Keys;
  }

  /**
    Pruning keeps the arena well formed: a dangling node has no elements, hence requires
    nothing, and nobody requires it, so no edge of a kept node leads to a pruned one.
   */
  lemma {:induction false} PrunedValid(nodes: map<ElementId, ElementSet>)
    requires GraphValid(nodes)
    ensures GraphValid(Pruned(nodes))
    ensures forall x :: x in Pruned(nodes) ==> !Pruned(nodes)[x].IsDangling()
  {
    var r := Pruned(nodes);
    forall a, b | a in r && b in r[a].required
      ensures b in r
    {
      assert a in nodes[b].requiring;
    }
    forall a, b | a in r && b in r[a].requiring
      ensures b in r
    {
      assert a in nodes[b].required;
      RequiringNodeHasElements(nodes[b].available, a);
    }
  }
}

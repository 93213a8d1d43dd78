# DependencySystem resolver core, modelled in Dafny

This project models `DependencySystem`, the orchestrator of the Eclipse OSGi dependency
resolver, and proves properties of the model. A `DependencySystem` owns the map from element
id to element set. An element set is one node of the dependency graph. It holds every known
version of one element id, the sets it requires, the sets that require it, and per-pass
bookkeeping marks. The system drives a three-phase resolve over that graph:

- satisfaction, from the roots towards the leaves;
- selection, from the satisfied leaves back towards the roots;
- resolution, from the selected sets towards the leaves.

It also keeps:

- a wrapping pass counter, packed into marks together with the visitor's order;
- the current and the last resolution delta;
- a running element count.

After each resolve it prunes element sets that have no elements and that nobody requires.

Modules:

- `Wrappers` (`wrappers.dfy`): `Option` and `Result`.
- `Marks` (`marks.dfy`): the counter and the mark arithmetic of `getNewMark` and
  `getVisitorOrder`.
- `Elements` (`elements.dfy`): elements, dependencies and element sets as values, and the
  arena (a map from id to element set) with its well-formedness invariant `GraphValid`. It
  also holds the arena operations behind `getElementSet`, `addElement`, `removeElement`,
  `getElement` and `pruneEmptySets`.
- `Deltas` (`deltas.dfy`): the records `recordDependencyChanged` adds to a delta.
- `Traversal` (`traversal.dfy`): the specification of one `visit` pass (`Pass`), of its
  bookkeeping (`Progress`) and of the `getResolved` walk (`Walk`). It also states the closure
  a finished pass or walk guarantees (`Covered`, `PassClosed`, `WalkClosed`): every set it was
  handed, at the start or as a descendant of a visited set, was visited, already carried the
  mark, or waits for an ancestor without the mark; and conversely every set it visited was a
  start set or a descendant of a set visited before it (`HandedTrace`). The step lemmas that the
  loops use are here too.
- `Dependencies` (`dependency_system.dfy`): the class `DependencySystem`, whose methods update
  its fields in place the way the Java methods do, including the level-by-level `while` loops
  of `visit` and `getResolved`.

A root is an element set that requires nothing (`required == {}`). This is the orientation
`getResolved` uses: it starts from `discoverRoots`, waits until the `required` sets of a set
carry the mark, and moves on to the `requiring` sets. Traversals from the roots towards the
leaves therefore follow the `requiring` edges. Satisfaction and resolution take the `required`
sets as ancestors and the `requiring` sets as descendants; selection takes the reverse.

`visit` compares the number of visits with the number of sets, and does so only when the
start of a pass is not empty. A graph in which every set requires another set has no roots,
so every pass starts empty. Such a graph is never reported as cyclic: `resolve` succeeds
without the cyclic-system error, for example when A and B require each other. `Resolve`
ensures that a system without roots resolves successfully and returns the delta as it was.

## Model

| member | source | states |
|---|---|---|
| Marks.VisitorOrder | bundles/org.eclipse.osgi/resolver/src/org/eclipse/core/internal/dependencies/DependencySystem.java:182-184 | the order of a mark is its low byte: between 0 and 255, and no larger than a non-negative mark |
| Marks.NextCounter | bundles/org.eclipse.osgi/resolver/src/org/eclipse/core/internal/dependencies/DependencySystem.java:187 | the counter after a draw lies in 1..255; it is the old counter plus one, and wraps from 255 to 1 |
| Marks.MarkOf | bundles/org.eclipse.osgi/resolver/src/org/eclipse/core/internal/dependencies/DependencySystem.java:188 | a mark drawn with a counter in 1..255 lies in 256..65535, so it never equals the initial mark 0 of a set |
| Marks.Iterate | bundles/org.eclipse.osgi/resolver/src/org/eclipse/core/internal/dependencies/DependencySystem.java:186-189 | the counter after k draws stays in 0..255, and in 1..255 once at least one draw was made |
| Marks.VisitorOrderOfMark | bundles/org.eclipse.osgi/resolver/src/org/eclipse/core/internal/dependencies/DependencySystem.java:182-189 | `getVisitorOrder(getNewMark(o)) == o` for every order 0..255 |
| Marks.MarkDeterminesPassAndOrder | bundles/org.eclipse.osgi/resolver/src/org/eclipse/core/internal/dependencies/DependencySystem.java:186-189 | equal marks come from the same counter value and orders with the same low byte |
| Marks.IterateClosedForm | bundles/org.eclipse.osgi/resolver/src/org/eclipse/core/internal/dependencies/DependencySystem.java:187 | after k >= 1 draws from c the counter is `(c + k - 1) mod 255 + 1`: it cycles with period 255 |
| Marks.MarksDistinctWithinCycle | bundles/org.eclipse.osgi/resolver/src/org/eclipse/core/internal/dependencies/DependencySystem.java:186-189 | two draws fewer than 255 draws apart give different marks for the same order |
| Deltas.Departures | bundles/org.eclipse.osgi/resolver/src/org/eclipse/core/internal/dependencies/DependencySystem.java:285-294 | one loop of `recordDependencyChanged` records at most one change per element it scans |
| Deltas.DependencyChanges | bundles/org.eclipse.osgi/resolver/src/org/eclipse/core/internal/dependencies/DependencySystem.java:284-295 | the records of one `recordDependencyChanged` call: the UNRESOLVED loop's records, then the RESOLVED loop's; `DependencyChangesExact` states what they are |
| Deltas.DeparturesSound | bundles/org.eclipse.osgi/resolver/src/org/eclipse/core/internal/dependencies/DependencySystem.java:285-294 | every record of a loop has that loop's kind and names a scanned element missing from the other collection |
| Deltas.DeparturesComplete | bundles/org.eclipse.osgi/resolver/src/org/eclipse/core/internal/dependencies/DependencySystem.java:285-294 | every scanned element missing from the other collection gets its record |
| Deltas.DependencyChangesExact | bundles/org.eclipse.osgi/resolver/src/org/eclipse/core/internal/dependencies/DependencySystem.java:284-295 | UNRESOLVED is recorded exactly for old elements not in the new collection, RESOLVED exactly for new elements not in the old one, and an element in both gets no record |
| Deltas.UnchangedRecordsNothing | bundles/org.eclipse.osgi/resolver/src/org/eclipse/core/internal/dependencies/DependencySystem.java:284-295 | an unchanged resolved collection records nothing |
| Elements.ElementSet.MarkNeedingUpdate | bundles/org.eclipse.osgi/resolver/src/org/eclipse/core/internal/dependencies/DependencySystem.java:119 | after `markNeedingUpdate(order)` the set needs an update for that order |
| Elements.ElementSet.GetElement | bundles/org.eclipse.osgi/resolver/src/org/eclipse/core/internal/dependencies/DependencySystem.java:301 | a set finds exactly its available versions, and finds the element stored under the version |
| Elements.NewElementSet | bundles/org.eclipse.osgi/resolver/src/org/eclipse/core/internal/dependencies/DependencySystem.java:53 | a created set carries the id, has no elements, no edges and no resolved elements |
| Elements.Recompute | bundles/org.eclipse.osgi/resolver/src/org/eclipse/core/internal/dependencies/DependencySystem.java:138-139 | a visitor's update keeps the set's id, elements, edges and visited mark |
| Elements.Relink | bundles/org.eclipse.osgi/resolver/src/org/eclipse/core/internal/dependencies/DependencySystem.java:196-211 | after a set's elements change, the set holds exactly them, requires exactly the ids they depend on and is flagged for satisfaction; no set is created or removed |
| Elements.WithElement | bundles/org.eclipse.osgi/resolver/src/org/eclipse/core/internal/dependencies/DependencySystem.java:197 | adding an element to its set stores it under its version, flags the set for satisfaction and leaves the elements of every other set alone |
| Elements.WithoutVersion | bundles/org.eclipse.osgi/resolver/src/org/eclipse/core/internal/dependencies/DependencySystem.java:210 | removing a version drops exactly that version from the set, flags the set for satisfaction and leaves the elements of every other set alone |
| Elements.WithRequiredSets | bundles/org.eclipse.osgi/resolver/src/org/eclipse/core/internal/dependencies/DependencySystem.java:197 | the sets of all ids an element depends on exist afterwards, and no other set is created |
| Elements.WithSet | bundles/org.eclipse.osgi/resolver/src/org/eclipse/core/internal/dependencies/DependencySystem.java:49-55 | the set of an id exists afterwards; a known id leaves the arena unchanged and an unknown one adds exactly a fresh empty set |
| Elements.WithElementValid | bundles/org.eclipse.osgi/resolver/src/org/eclipse/core/internal/dependencies/DependencySystem.java:197 | adding an element whose required sets exist keeps the graph well formed: edges match dependencies and back-references |
| Elements.WithoutVersionValid | bundles/org.eclipse.osgi/resolver/src/org/eclipse/core/internal/dependencies/DependencySystem.java:206-211 | removing a version keeps the graph well formed |
| Elements.WithSetValid | bundles/org.eclipse.osgi/resolver/src/org/eclipse/core/internal/dependencies/DependencySystem.java:49-55 | creating a set keeps the graph well formed |
| Elements.Lookup | bundles/org.eclipse.osgi/resolver/src/org/eclipse/core/internal/dependencies/DependencySystem.java:297-302 | an element is found exactly when its id has a set holding the version, and it carries that id and version |
| Elements.AddedToValid | bundles/org.eclipse.osgi/resolver/src/org/eclipse/core/internal/dependencies/DependencySystem.java:196-199 | `addElement` keeps the graph well formed |
| Elements.AddedTo | bundles/org.eclipse.osgi/resolver/src/org/eclipse/core/internal/dependencies/DependencySystem.java:196-199 | `addElement` adds exactly the sets of the element's id and of its dependencies' ids |
| Elements.AddedToLookup | bundles/org.eclipse.osgi/resolver/src/org/eclipse/core/internal/dependencies/DependencySystem.java:196-199 | after `addElement(e)`, `getElement` finds e under its id and version and answers as before for every other pair; exactly the sets of e and of its dependencies are added |
| Elements.AddedAllValid | bundles/org.eclipse.osgi/resolver/src/org/eclipse/core/internal/dependencies/DependencySystem.java:191-194 | `addElements` keeps the graph well formed |
| Elements.AddedAll | bundles/org.eclipse.osgi/resolver/src/org/eclipse/core/internal/dependencies/DependencySystem.java:191-194 | `addElements` removes no set |
| Elements.AddedAllKeys | bundles/org.eclipse.osgi/resolver/src/org/eclipse/core/internal/dependencies/DependencySystem.java:191-194 | after `addElements` the set of every added element exists |
| Elements.WithoutVersionLookup | bundles/org.eclipse.osgi/resolver/src/org/eclipse/core/internal/dependencies/DependencySystem.java:206-211 | after removing a version, `getElement` finds nothing under that id and version and answers as before for every other pair |
| Elements.Removed | bundles/org.eclipse.osgi/resolver/src/org/eclipse/core/internal/dependencies/DependencySystem.java:213-218 | `removeElement(element)` creates and removes no set |
| Elements.RemovedAll | bundles/org.eclipse.osgi/resolver/src/org/eclipse/core/internal/dependencies/DependencySystem.java:201-204 | `removeElements` creates and removes no set |
| Elements.RemovedAllLookup | bundles/org.eclipse.osgi/resolver/src/org/eclipse/core/internal/dependencies/DependencySystem.java:201-204 | after `removeElements`, `getElement` finds nothing under a removed id and version and answers as before for every other pair |
| Elements.PrunedValid | bundles/org.eclipse.osgi/resolver/src/org/eclipse/core/internal/dependencies/DependencySystem.java:89-95 | pruning keeps the graph well formed (no kept set has an edge to a pruned one) and leaves no dangling set |
| Elements.Pruned | bundles/org.eclipse.osgi/resolver/src/org/eclipse/core/internal/dependencies/DependencySystem.java:89-95 | pruning keeps exactly the sets that have elements or are required, each unchanged |
| Traversal.Phase.Order | bundles/org.eclipse.osgi/resolver/src/org/eclipse/core/internal/dependencies/DependencySystem.java:103 | the visitor's `getOrder`: satisfaction, selection and resolution have orders 0, 1 and 2 |
| Traversal.Phase.Ancestors | bundles/org.eclipse.osgi/resolver/src/org/eclipse/core/internal/dependencies/DependencySystem.java:121 | the visitor's `getAncestors`: the `requiring` sets in selection, the `required` sets otherwise |
| Traversal.Phase.Descendants | bundles/org.eclipse.osgi/resolver/src/org/eclipse/core/internal/dependencies/DependencySystem.java:143-146 | the visitor's `getDescendants`: the `required` sets in selection, the `requiring` sets otherwise |
| Traversal.ChangedInEarlierPhase | bundles/org.eclipse.osgi/resolver/src/org/eclipse/core/internal/dependencies/DependencySystem.java:118 | the set changed during its last visit, and that visit was in an earlier phase than the visitor's |
| Traversal.AncestorsVisited | bundles/org.eclipse.osgi/resolver/src/org/eclipse/core/internal/dependencies/DependencySystem.java:121-127 | every ancestor carries the pass mark, so the ancestor loop does not bail out |
| Traversal.AncestorChanged | bundles/org.eclipse.osgi/resolver/src/org/eclipse/core/internal/dependencies/DependencySystem.java:128-130 | some ancestor was visited in this pass and changed in it |
| Traversal.VisitFlag | bundles/org.eclipse.osgi/resolver/src/org/eclipse/core/internal/dependencies/DependencySystem.java:118-130 | the set needs an update for the visitor's order: a change in an earlier phase or a changed ancestor |
| Traversal.Flagged | bundles/org.eclipse.osgi/resolver/src/org/eclipse/core/internal/dependencies/DependencySystem.java:119-130 | a flagged set needs an update for the order; an unflagged one is unchanged |
| Traversal.Leaves | bundles/org.eclipse.osgi/resolver/src/org/eclipse/core/internal/dependencies/DependencySystem.java:143-146 | a set is a leaf of a pass exactly when it was visited and has no descendants in the pass's direction |
| Traversal.Visited | bundles/org.eclipse.osgi/resolver/src/org/eclipse/core/internal/dependencies/DependencySystem.java:135-139 | a visit stamps the pass mark and keeps the set's shape; without a flag and without a pending update it only stamps |
| Traversal.VisitedSets | bundles/org.eclipse.osgi/resolver/src/org/eclipse/core/internal/dependencies/DependencySystem.java:113-141 | after a pass every visited set carries the mark, and the visitor's update ran only on sets that were flagged |
| Traversal.PassComplete | bundles/org.eclipse.osgi/resolver/src/org/eclipse/core/internal/dependencies/DependencySystem.java:150-154 | a pass not reported as cyclic (visit count equal to the number of sets) visited every set, and every set carries the pass mark |
| Traversal.Pass | bundles/org.eclipse.osgi/resolver/src/org/eclipse/core/internal/dependencies/DependencySystem.java:101-155 | what one `visit` pass may do: the graph's shape is kept, each set of the trace is visited once, after its ancestors, and updated by the visitor, and every other set is at most flagged (stated through `VisitedSets`, `PassComplete`, `PassClosed`); which sets may be visited at all is `Covered`'s `Handed` part |
| Traversal.PassMarked | bundles/org.eclipse.osgi/resolver/src/org/eclipse/core/internal/dependencies/DependencySystem.java:135-139 | after a pass a set carries the mark exactly when the pass visited it or it carried the mark already |
| Traversal.FrontierHolds | bundles/org.eclipse.osgi/resolver/src/org/eclipse/core/internal/dependencies/DependencySystem.java:143-146 | the sets handed on by a pass contain the descendants of every visited set |
| Traversal.FrontierFrom | bundles/org.eclipse.osgi/resolver/src/org/eclipse/core/internal/dependencies/DependencySystem.java:143-146 | conversely, every set handed on by a pass is a descendant of some visited set |
| Traversal.HandedTrace | bundles/org.eclipse.osgi/resolver/src/org/eclipse/core/internal/dependencies/DependencySystem.java:107-148 | a trace is handed when each visited set was a start set or a descendant of a set visited before it |
| Traversal.Handed | bundles/org.eclipse.osgi/resolver/src/org/eclipse/core/internal/dependencies/DependencySystem.java:107-148 | the trace is handed, and each pending set is a start set or a descendant of a visited set |
| Traversal.HandedTraceAt | bundles/org.eclipse.osgi/resolver/src/org/eclipse/core/internal/dependencies/DependencySystem.java:107-148 | in a handed trace the `i`th visited set is a start set or in the frontier of the first `i` visited sets |
| Traversal.HandedOrigin | bundles/org.eclipse.osgi/resolver/src/org/eclipse/core/internal/dependencies/DependencySystem.java:107-148 | in a handed trace every visited set is a start set or a descendant of a set visited before it |
| Traversal.HandedVisitStep | bundles/org.eclipse.osgi/resolver/src/org/eclipse/core/internal/dependencies/DependencySystem.java:135-147 | visiting the head of the pending sets and handing on only its descendants keeps the trace and every pending set handed |
| Traversal.HandedKeepStep | bundles/org.eclipse.osgi/resolver/src/org/eclipse/core/internal/dependencies/DependencySystem.java:113-133 | dropping the head of the pending sets keeps the rest handed |
| Traversal.DeferredSettled | bundles/org.eclipse.osgi/resolver/src/org/eclipse/core/internal/dependencies/DependencySystem.java:121-131 | a set deferred because an ancestor lacks the mark is settled |
| Traversal.CoveredVisitStep | bundles/org.eclipse.osgi/resolver/src/org/eclipse/core/internal/dependencies/DependencySystem.java:135-147 | visiting the head of the pending sets and handing on exactly its descendants keeps every handed set covered and only handed sets visited or pending |
| Traversal.CoveredKeepStep | bundles/org.eclipse.osgi/resolver/src/org/eclipse/core/internal/dependencies/DependencySystem.java:113-133 | skipping or deferring a settled set keeps every handed set covered |
| Traversal.CoveredAfterVisit | bundles/org.eclipse.osgi/resolver/src/org/eclipse/core/internal/dependencies/DependencySystem.java:135-147 | a visit of `visit` keeps every handed set covered |
| Traversal.CoveredAfterKeep | bundles/org.eclipse.osgi/resolver/src/org/eclipse/core/internal/dependencies/DependencySystem.java:113-133 | a skip (mark already present) or deferral (an ancestor lacks the mark) of `visit` keeps every handed set covered |
| Traversal.PassClosed | bundles/org.eclipse.osgi/resolver/src/org/eclipse/core/internal/dependencies/DependencySystem.java:101-155 | at the end of a pass every start set and every descendant of a visited set was visited, already carried the mark, or has an ancestor that ended the pass without the mark; and every visited set was a start set or in the frontier of the sets visited before it |
| Traversal.LevelVisitStep | bundles/org.eclipse.osgi/resolver/src/org/eclipse/core/internal/dependencies/DependencySystem.java:135-147 | a visit inside a level keeps the bookkeeping and the coverage, adds the set to the leaves exactly when it has no descendants, and keeps its descendants |
| Traversal.LevelKeepStep | bundles/org.eclipse.osgi/resolver/src/org/eclipse/core/internal/dependencies/DependencySystem.java:113-133 | a skip or deferral inside a level keeps the bookkeeping and the coverage |
| Traversal.RecordedOnlyInResolution | bundles/org.eclipse.osgi/resolver/src/org/eclipse/core/internal/dependencies/DependencySystem.java:139 | the satisfaction and selection passes add nothing to the delta |
| Traversal.RecordedSound | bundles/org.eclipse.osgi/resolver/src/org/eclipse/core/internal/dependencies/DependencySystem.java:284-295 | every record of a resolution pass names a visited set that lost (UNRESOLVED) or gained (RESOLVED) that element during the pass |
| Traversal.RecordedComplete | bundles/org.eclipse.osgi/resolver/src/org/eclipse/core/internal/dependencies/DependencySystem.java:284-295 | every element a visited set lost during a resolution pass gets its UNRESOLVED record, and every element it gained gets its RESOLVED record |
| Traversal.RecordedIncludes | bundles/org.eclipse.osgi/resolver/src/org/eclipse/core/internal/dependencies/DependencySystem.java:139 | the records of each visited set are among the records of the pass |
| Traversal.Recorded | bundles/org.eclipse.osgi/resolver/src/org/eclipse/core/internal/dependencies/DependencySystem.java:139 | the records a resolution pass appends: the `recordDependencyChanged` records of each visited set, in visit order. `RecordedSound` and `RecordedComplete` state that they report exactly what changed, and `RecordedOnlyInResolution` that other phases report nothing |
| Traversal.ResolvedOfExact | bundles/org.eclipse.osgi/resolver/src/org/eclipse/core/internal/dependencies/DependencySystem.java:241-257 | `getResolved` gathers an element exactly when it is resolved in one of the walked sets |
| Traversal.ResolvedOf | bundles/org.eclipse.osgi/resolver/src/org/eclipse/core/internal/dependencies/DependencySystem.java:256-258 | the resolved elements of the walked sets, in walk order (stated through `ResolvedOfExact`) |
| Traversal.PassVisitStep | bundles/org.eclipse.osgi/resolver/src/org/eclipse/core/internal/dependencies/DependencySystem.java:135-146 | visiting a set whose ancestors all carry the mark extends the pass by that set and appends its resolved-element changes to the records |
| Traversal.PassKeepStep | bundles/org.eclipse.osgi/resolver/src/org/eclipse/core/internal/dependencies/DependencySystem.java:113-133 | skipping or deferring a set, possibly after flagging it, keeps the pass invariant |
| Traversal.WalkStep | bundles/org.eclipse.osgi/resolver/src/org/eclipse/core/internal/dependencies/DependencySystem.java:256-258 | walking a set with resolved elements whose required sets carry the mark extends the walk and appends its resolved elements |
| Traversal.Walk | bundles/org.eclipse.osgi/resolver/src/org/eclipse/core/internal/dependencies/DependencySystem.java:228-263 | what the walk of `getResolved` may do: the graph's shape is kept, each walked set has resolved elements and is walked once, after the sets it requires, and only its visited mark changes; which sets may be walked at all is `Covered`'s `Handed` part |
| Traversal.WalkMarked | bundles/org.eclipse.osgi/resolver/src/org/eclipse/core/internal/dependencies/DependencySystem.java:240-258 | after a walk a set carries the mark exactly when it was walked or carried it already, and no resolved elements change |
| Traversal.WalkCoveredStep | bundles/org.eclipse.osgi/resolver/src/org/eclipse/core/internal/dependencies/DependencySystem.java:256-258 | walking the head of the pending sets and handing on its requiring sets keeps every handed set covered |
| Traversal.WalkCoveredKeep | bundles/org.eclipse.osgi/resolver/src/org/eclipse/core/internal/dependencies/DependencySystem.java:239-255 | passing over a set that carries the mark, has no resolved elements or requires an unmarked set keeps every handed set covered |
| Traversal.WalkClosed | bundles/org.eclipse.osgi/resolver/src/org/eclipse/core/internal/dependencies/DependencySystem.java:228-263 | at the end of the walk every root and every set requiring a walked set was walked, already carried the mark, has no resolved element, or requires a set that ended the walk without the mark; and every walked set was a root or required a set walked before it |
| Dependencies.Enumerate | bundles/org.eclipse.osgi/resolver/src/org/eclipse/core/internal/dependencies/DependencySystem.java:121 | iterating a hash-based collection yields each of its members exactly once, in some order |
| Dependencies.DependencySystem.constructor | bundles/org.eclipse.osgi/resolver/src/org/eclipse/core/internal/dependencies/DependencySystem.java:39-43 | a new system has no sets, counter 0, element count 0, empty deltas and the given policy |
| Dependencies.DependencySystem.GetNewMark | bundles/org.eclipse.osgi/resolver/src/org/eclipse/core/internal/dependencies/DependencySystem.java:186-189 | the counter advances to 1..255 and the mark packs it with the order, whose low byte `getVisitorOrder` recovers |
| Dependencies.DependencySystem.GetElementSet | bundles/org.eclipse.osgi/resolver/src/org/eclipse/core/internal/dependencies/DependencySystem.java:49-55 | the set is created only if the id is absent, and a known id returns the stored set |
| Dependencies.DependencySystem.GetElement | bundles/org.eclipse.osgi/resolver/src/org/eclipse/core/internal/dependencies/DependencySystem.java:297-302 | an unknown id or version gives None; otherwise the stored element |
| Dependencies.DependencySystem.DiscoverRoots | bundles/org.eclipse.osgi/resolver/src/org/eclipse/core/internal/dependencies/DependencySystem.java:57-65 | the roots are exactly the sets that require nothing, each once; none are found exactly when the graph has no root |
| Dependencies.DependencySystem.PruneEmptySets | bundles/org.eclipse.osgi/resolver/src/org/eclipse/core/internal/dependencies/DependencySystem.java:89-95 | exactly the sets with no elements and no requiring sets are removed; the others are kept unchanged |
| Dependencies.DependencySystem.RecordElementStatusChanged | bundles/org.eclipse.osgi/resolver/src/org/eclipse/core/internal/dependencies/DependencySystem.java:280-282 | one record is appended to the current delta |
| Dependencies.DependencySystem.RecordDependencyChanged | bundles/org.eclipse.osgi/resolver/src/org/eclipse/core/internal/dependencies/DependencySystem.java:284-295 | the two loops append exactly the records of `DependencyChanges`, UNRESOLVED ones first |
| Dependencies.DependencySystem.AddElement | bundles/org.eclipse.osgi/resolver/src/org/eclipse/core/internal/dependencies/DependencySystem.java:196-199 | the arena becomes `AddedTo` of the old one, stays well formed, and the element count grows by exactly one |
| Dependencies.DependencySystem.AddToElementSet | bundles/org.eclipse.osgi/resolver/src/org/eclipse/core/internal/dependencies/DependencySystem.java:197 | the creating lookup followed by the set's `addElement` gives `AddedTo` of the old arena |
| Dependencies.DependencySystem.CreateRequiredSets | bundles/org.eclipse.osgi/resolver/src/org/eclipse/core/internal/dependencies/DependencySystem.java:197 | looking up the set of each dependency in turn gives `WithRequiredSets` of the old arena |
| Dependencies.DependencySystem.AddElements | bundles/org.eclipse.osgi/resolver/src/org/eclipse/core/internal/dependencies/DependencySystem.java:191-194 | the elements are added in order, the graph stays well formed and the count grows by their number |
| Dependencies.DependencySystem.RemoveElementVersion | bundles/org.eclipse.osgi/resolver/src/org/eclipse/core/internal/dependencies/DependencySystem.java:206-211 | an unknown id changes nothing; otherwise the version leaves its set and the graph stays well formed |
| Dependencies.DependencySystem.RemoveElement | bundles/org.eclipse.osgi/resolver/src/org/eclipse/core/internal/dependencies/DependencySystem.java:213-218 | as `removeElement(id, versionId)` with the element's own id and version |
| Dependencies.DependencySystem.RemoveElements | bundles/org.eclipse.osgi/resolver/src/org/eclipse/core/internal/dependencies/DependencySystem.java:201-204 | the arena becomes `RemovedAll` of the old one: no set is created or removed, the graph stays well formed, none of the removed elements is found afterwards, and `getElement` answers as before for every id and version not removed |
| Dependencies.DependencySystem.Unresolve | bundles/org.eclipse.osgi/resolver/src/org/eclipse/core/internal/dependencies/DependencySystem.java:329-337 | one resolution-order mark is drawn and each element is demoted in its set, created first if absent, in order |
| Dependencies.DependencySystem.CheckAncestors | bundles/org.eclipse.osgi/resolver/src/org/eclipse/core/internal/dependencies/DependencySystem.java:118-133 | the set may be visited exactly when all its ancestors carry the mark; a visited set is flagged exactly for a change in an earlier phase or a changed ancestor (`VisitFlag`); a deferred set is flagged at most for a `VisitFlag` reason, and always for a change in an earlier phase |
| Dependencies.DependencySystem.VisitNode | bundles/org.eclipse.osgi/resolver/src/org/eclipse/core/internal/dependencies/DependencySystem.java:111-141 | a set is visited exactly when it lacks the mark and its ancestors carry it; a visit is a `VisitStep`, a skip or deferral a `KeepStep`, and only a resolution visit records changes |
| Dependencies.DependencySystem.VisitOne | bundles/org.eclipse.osgi/resolver/src/org/eclipse/core/internal/dependencies/DependencySystem.java:110-147 | one set of a level: a visit hands on all its descendants, and the bookkeeping and coverage are kept |
| Dependencies.DependencySystem.VisitAt | bundles/org.eclipse.osgi/resolver/src/org/eclipse/core/internal/dependencies/DependencySystem.java:110-147 | one set of a level keeps the pass bookkeeping and the coverage of every handed set; a visited set has all its descendants handed on to the next level |
| Dependencies.DependencySystem.VisitLevel | bundles/org.eclipse.osgi/resolver/src/org/eclipse/core/internal/dependencies/DependencySystem.java:108-148 | one level keeps the pass bookkeeping; every set handed so far is visited, settled, or in the next level; a non-empty next level means a visit happened |
| Dependencies.DependencySystem.Visit | bundles/org.eclipse.osgi/resolver/src/org/eclipse/core/internal/dependencies/DependencySystem.java:101-155 | one mark is drawn; the arena changes as `Pass` allows; every start set and every descendant of a visited set ends visited, marked, or behind an unmarked ancestor (`Covered`); every visited set was a start set or a descendant of a set visited before it; the delta grows by the pass's records; an empty start returns no leaves and changes nothing; otherwise the pass fails exactly when the visit count differs from the number of sets, and succeeds with the leaves |
| Dependencies.DependencySystem.VisitPhase | bundles/org.eclipse.osgi/resolver/src/org/eclipse/core/internal/dependencies/DependencySystem.java:101-155 | a pass keeps the graph's shape, only extends the delta (only in resolution), and returns sets of the arena |
| Dependencies.DependencySystem.AllVisited | bundles/org.eclipse.osgi/resolver/src/org/eclipse/core/internal/dependencies/DependencySystem.java:245-253 | the ancestor check of `getResolved` holds exactly when every required set carries the mark |
| Dependencies.DependencySystem.WalkLevel | bundles/org.eclipse.osgi/resolver/src/org/eclipse/core/internal/dependencies/DependencySystem.java:235-260 | one level keeps the walk bookkeeping; every set handed so far is walked, settled, or in the next level; a non-empty next level means a set was walked |
| Dependencies.DependencySystem.WalkAt | bundles/org.eclipse.osgi/resolver/src/org/eclipse/core/internal/dependencies/DependencySystem.java:240-259 | one set of a level of `getResolved`: a walk hands on all its requiring sets, and the bookkeeping and coverage are kept |
| Dependencies.DependencySystem.GetResolved | bundles/org.eclipse.osgi/resolver/src/org/eclipse/core/internal/dependencies/DependencySystem.java:228-263 | one mark is drawn; the walk starts from exactly the roots; each walked set is walked once, after the sets it requires, and only its visited mark changes; every root and every set requiring a walked set ends walked, marked, without resolved elements, or behind an unmarked required set (`Covered`); every walked set was a root or required a set walked before it; the result is the resolved elements of the walked sets in walk order |
| Dependencies.DependencySystem.Traverse | bundles/org.eclipse.osgi/resolver/src/org/eclipse/core/internal/dependencies/DependencySystem.java:75-81 | the three passes keep the graph's shape and only extend the delta; success draws three marks; without roots nothing changes |
| Dependencies.DependencySystem.Resolve | bundles/org.eclipse.osgi/resolver/src/org/eclipse/core/internal/dependencies/DependencySystem.java:74-86 | on success the accumulated delta becomes the last delta and is returned, the current delta is empty, and exactly the dangling sets are pruned; a failure leaves the last delta and the graph's shape alone; a system without roots always succeeds |
| Dependencies.DemoteIn | bundles/org.eclipse.osgi/resolver/src/org/eclipse/core/internal/dependencies/DependencySystem.java:332-335 | demoting an element creates its set if needed; the element is then not resolved there and the set carries the mark |
| Dependencies.Without | bundles/org.eclipse.osgi/resolver/src/org/eclipse/core/internal/dependencies/DependencySystem.java:335 | the resolved elements without the demoted element: exactly the others remain, and the collection does not grow |
| Dependencies.Demote | bundles/org.eclipse.osgi/resolver/src/org/eclipse/core/internal/dependencies/DependencySystem.java:335 | `unresolve` on a set keeps its identity, elements and edges |
| Dependencies.DemoteInValid | bundles/org.eclipse.osgi/resolver/src/org/eclipse/core/internal/dependencies/DependencySystem.java:332-335 | demoting keeps the graph well formed |
| Dependencies.UnresolvedInValid | bundles/org.eclipse.osgi/resolver/src/org/eclipse/core/internal/dependencies/DependencySystem.java:329-337 | `unresolve` keeps the graph well formed |
| Dependencies.UnresolvedIn | bundles/org.eclipse.osgi/resolver/src/org/eclipse/core/internal/dependencies/DependencySystem.java:329-337 | the arena after `unresolve`: each given element demoted in its set in turn (stated through the `UnresolvedIn` lemmas) |
| Dependencies.UnresolvedInKeys | bundles/org.eclipse.osgi/resolver/src/org/eclipse/core/internal/dependencies/DependencySystem.java:331-333 | `unresolve` keeps every set and adds exactly one for each unknown id it is given |
| Dependencies.UnresolvedInDemotes | bundles/org.eclipse.osgi/resolver/src/org/eclipse/core/internal/dependencies/DependencySystem.java:329-337 | afterwards no given element is resolved in its set, and each of those sets carries the mark |
| Dependencies.UnresolvedInOnlyDemotes | bundles/org.eclipse.osgi/resolver/src/org/eclipse/core/internal/dependencies/DependencySystem.java:329-337 | `unresolve` changes no element or edge and resolves nothing new |
| Dependencies.UnresolvedInUntouched | bundles/org.eclipse.osgi/resolver/src/org/eclipse/core/internal/dependencies/DependencySystem.java:329-337 | the sets of ids not given are untouched |
| Dependencies.PrunedSameGraph | bundles/org.eclipse.osgi/resolver/src/org/eclipse/core/internal/dependencies/DependencySystem.java:82-84 | the passes do not change which sets pruning removes |

## Left out

- `ElementSet`, the three visitor classes, `ResolutionDelta`, `Element` and `Dependency` are
  not part of this model's source. The model gives them only the effects `DependencySystem`
  relies on:
  - an element set is a value with elements by version, edges, marks and a set of orders
    that need an update;
  - adding or removing a version recomputes the set's `required` edges from its elements'
    dependencies, fixes the back-references, and flags the set for satisfaction;
  - `unresolve(element, mark)` removes the element from the set's resolved elements and sets
    the changed mark;
  - a visitor is a phase (order and direction) plus an uninterpreted update function, from
    whose result only the phase results, the changed mark and the update flags are taken;
  - a delta is a sequence of (element, kind) records.
- `Visitor.update` is a function of the visited set alone. The real visitors also read other
  sets: satisfaction looks for matches elsewhere, and resolution checks that the required
  sets are resolved. The model therefore does not capture why the ancestors-first order
  matters to the phase results. `VisitsApplied` states a visited set's new value only under
  this set-local update.
- `ChangeKind` has only `Resolved` and `Unresolved`, the kinds the resolve passes record.
  `recordElementStatusChanged` accepts any integer kind, ADDED and REMOVED among them; the
  model's `RecordElementStatusChanged` takes only those two.
- The version match rule of a dependency and the comparator (`compare`): delegation to
  injected objects; the concrete satisfaction, selection and resolution policies are
  parameters (`Policy`).
- `getCycleString` and `ComputeNodeOrder`: the exception carries no description.
- `toString`, the debug flag and `inDebugMode`: formatting and diagnostics only.
- `createElement` and `createDependency`: constructors of classes that are not modelled.
- `getRequiringElements`: it depends on the version match rule inside `ElementSet`, and for an
  unknown id it would first create an empty set through `getElementSet`
  (DependencySystem.java:324-326); neither is modelled.
- `getNodes`, `getElementCount` and `getLastDelta`: plain getters. The model's fields
  `elementSets`, `elementCount` and `lastDelta` are public.
- `resolve()` without an argument: it is `resolve(true)`, and `produceDelta` has no effect.
- Hash map iteration order: `Enumerate` and `DiscoverRoots` pick the members of a set in an
  arbitrary order, and every contract holds for any order.
- `elementCount` is a Java `long`; the model uses an unbounded integer.
- Dependencies.DependencySystem.Resolve: the returned delta is stated only to extend the
  delta accumulated before the resolve. The records the three passes add are stated pass by
  pass by `Visit` (as `Recorded`), not composed across the three passes.
- Dependencies.DependencySystem.VisitPhase: it states only that a pass keeps the graph's
  shape, extends the delta (in resolution only) and returns sets of the arena, not `Visit`'s
  `Pass`, coverage or leaves. It is the form `Traverse` and `Resolve` use, and keeping it small
  keeps their proofs small; `Visit` states the rest.
- `recordDependencyChanged`'s `present` map is never read by the method, so the model drops
  that parameter.
- Dependencies.DependencySystem.Traverse: it states that the three passes keep the graph's
  shape but not what each pass did to the phase results. That is `Visit`'s `Pass`, stated
  once per pass.

/**
  The records `recordDependencyChanged` adds to the current resolution delta when a node's
  resolved elements change from `oldResolved` to `newResolved`.
 */
module Deltas {
  import opened Elements

  /**
    One `kind` record for each element of `from`, in order, that is not in `to`: the
    UNRESOLVED records when `from` is the old resolved collection, the RESOLVED records when
    it is the new one.
   */
  function Departures(from: seq<Element>, to: seq<Element>, kind: ChangeKind): (r: seq<Change>)
    ensures |r| <= |from|
  {
    if from == [] then []
    else
      var last := from[|from| - 1];
      Departures(from[..|from| - 1], to, kind) + (if last in to then [] else [Change(last, kind)])
  }

  /** All the records of one `recordDependencyChanged` call: UNRESOLVED first, then RESOLVED. */
  function DependencyChanges(oldResolved: seq<Element>, newResolved: seq<Element>): seq<Change> {
    Departures(oldResolved, newResolved, Unresolved) + Departures(newResolved, oldResolved, Resolved)
  }

  /** Every record names `kind` and an element of `from` missing from `to`. */
  lemma {:induction false} DeparturesSound(from: seq<Element>, to: seq<Element>, kind: ChangeKind)
    ensures forall c :: c in Departures(from, to, kind) ==> c.kind == kind && c.element in from && c.element !in to
    decreases |from|
  {
    if from != [] {
      DeparturesSound(from[..|from| - 1], to, kind);
    }
  }

  /** Every element of `from` missing from `to` gets its record. */
  lemma {:induction false} DeparturesComplete(from: seq<Element>, to: seq<Element>, kind: ChangeKind, e: Element)
    requires e in from && e !in to
    ensures Change(e, kind) in Departures(from, to, kind)
    decreases |from|
  {
    var init := from[..|from| - 1];
    if e != from[|from| - 1] {
      assert e in init;
      DeparturesComplete(init, to, kind, e);
    }
  }

  /**
    UNRESOLVED is recorded exactly for the elements that left the resolved collection, RESOLVED
    exactly for those that joined it, and an element in both gets no record at all.
   */
  lemma DependencyChangesExact(oldResolved: seq<Element>, newResolved: seq<Element>, e: Element)
    ensures Change(e, Unresolved) in DependencyChanges(oldResolved, newResolved) <==> e in oldResolved && e !in newResolved
    ensures Change(e, Resolved) in DependencyChanges(oldResolved, newResolved) <==> e in newResolved && e !in oldResolved
    ensures e in oldResolved && e in newResolved ==>
      forall c :: c in DependencyChanges(oldResolved, newResolved) ==> c.element != e
  {
    DeparturesSound(oldResolved, newResolved, Unresolved);
    DeparturesSound(newResolved, oldResolved, Resolved);
    if e in oldResolved && e !in newResolved {
      DeparturesComplete(oldResolved, newResolved, Unresolved, e);
    }
    if e in newResolved && e !in oldResolved {
      DeparturesComplete(newResolved, oldResolved, Resolved, e);
    }
  }

  /** An unchanged resolved collection produces no records. */
  lemma UnchangedRecordsNothing(resolved: seq<Element>)
    ensures DependencyChanges(resolved, resolved) == []
  {
    DeparturesSound(resolved, resolved, Unresolved);
    DeparturesSound(resolved, resolved, Resolved);
    if Departures(resolved, resolved, Unresolved) != [] {
      assert Departures(resolved, resolved, Unresolved)[0] in Departures(resolved, resolved, Unresolved);
    }
    if Departures(resolved, resolved, Resolved) != [] {
      assert Departures(resolved, resolved, Resolved)[0] in Departures(resolved, resolved, Resolved);
    }
  }
}

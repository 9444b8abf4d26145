/**
 * src/lib/elementSize.ts: the batched element-size observer registry.
 *
 * Resize notifications only mark an element as changed; one commit, timed
 * out 34 ms after the first request, reads the sizes of every changed
 * element and only then calls the observers, so layout reads and writes are
 * batched. The timer is the `commitPending` flag plus an explicit `Commit`,
 * the `ResizeObserver` firing is an explicit `RequestCommit`, and the
 * element sizes the commit reads are a `measure` parameter.
 *
 * Each element's observers live in one `Set` object that the dispose
 * function captures; the sets are named by `SetId`s so that a dispose acts
 * on its own set even after the element was dropped from the map and
 * observed again.
 */
module ElementSize {
  import opened Collections

  type ElementId = nat
  type SetId = nat
  /** The `(box) => void` callback a component passes in. */
  type CallbackId = nat

  /** What the commit reads of an element: the offset and the client width and height. */
  datatype Box = Box(offset: (int, int), client: (int, int))

  /** An observer closure: fresh per registration, reporting one of the two pairs. */
  datatype Observer = Observer(id: nat, callback: CallbackId, paddingBox: bool)

  /** One entry of the commit's snapshot. */
  datatype Change = Change(element: ElementId, box: Box)

  /** One callback invocation and the pair it receives. */
  datatype Call = Call(callback: CallbackId, size: (int, int))

  /** What the returned dispose function captured: the element, its set and its observer. */
  datatype Disposer = Disposer(element: ElementId, observers: SetId, observer: Observer)

  /** The pair an observer passes on: the client pair for `padding-box`, the offset pair otherwise. */
  function Reported(paddingBox: bool, b: Box): (r: (int, int))
    ensures paddingBox ==> r == b.client
    ensures !paddingBox ==> r == b.offset
  {
    if paddingBox then b.client else b.offset
  }

  /** The observers `elementObservers.get(element)` yields. */
  function ObserversIn(sets: map<SetId, seq<Observer>>, bound: map<ElementId, SetId>, e: ElementId): seq<Observer> {
    if e in bound && bound[e] in sets then sets[bound[e]] else []
  }

  /** The snapshot taken of the changed elements, in their insertion order. */
  function Snapshot(elements: seq<ElementId>, measure: ElementId -> Box): (r: seq<Change>)
    ensures |r| == |elements|
    ensures forall i :: 0 <= i < |elements| ==> r[i] == Change(elements[i], measure(elements[i]))
  {
    seq(|elements|, i requires 0 <= i < |elements| => Change(elements[i], measure(elements[i])))
  }

  /** The calls one observer set makes for one change. */
  function CallsOf(observers: seq<Observer>, b: Box): (r: seq<Call>)
    ensures |r| == |observers|
    ensures forall i :: 0 <= i < |observers| ==>
              r[i] == Call(observers[i].callback, Reported(observers[i].paddingBox, b))
  {
    seq(|observers|, i requires 0 <= i < |observers| => Call(observers[i].callback, Reported(observers[i].paddingBox, b)))
  }

  /** The calls of the whole commit: change by change, each change's observers in order. */
  function CallsFor(sets: map<SetId, seq<Observer>>, bound: map<ElementId, SetId>, changes: seq<Change>): (r: seq<Call>)
    ensures |changes| == 1 ==> r == CallsOf(ObserversIn(sets, bound, changes[0].element), changes[0].box)
  {
    if changes == [] then []
    else
      var last := changes[|changes| - 1];
      CallsFor(sets, bound, changes[..|changes| - 1]) + CallsOf(ObserversIn(sets, bound, last.element), last.box)
  }

  /** One set's calls: one per observer, with the pair that observer reports. */
  lemma CallsOfMeaning(observers: seq<Observer>, b: Box, c: Call)
    ensures c in CallsOf(observers, b) <==> exists o :: o in observers && c == Call(o.callback, Reported(o.paddingBox, b))
  {
    if exists o :: o in observers && c == Call(o.callback, Reported(o.paddingBox, b)) {
      var o :| o in observers && c == Call(o.callback, Reported(o.paddingBox, b));
      var i :| 0 <= i < |observers| && observers[i] == o;
      assert CallsOf(observers, b)[i] == c;
    }
  }

  /**
   * The commit's calls are exactly the calls of the observers of the changed
   * elements, each with its pair of that element's snapshot.
   */
  lemma {:induction false} CallsForMeaning(sets: map<SetId, seq<Observer>>, bound: map<ElementId, SetId>, changes: seq<Change>, c: Call)
    ensures c in CallsFor(sets, bound, changes) <==>
            exists k :: 0 <= k < |changes| && c in CallsOf(ObserversIn(sets, bound, changes[k].element), changes[k].box)
  {
    if changes != [] {
      var n := |changes| - 1;
      var init := changes[..n];
      CallsForMeaning(sets, bound, init, c);
      assert forall k :: 0 <= k < n ==> init[k] == changes[k];
      if exists k :: 0 <= k < |changes| && c in CallsOf(ObserversIn(sets, bound, changes[k].element), changes[k].box) {
        var k :| 0 <= k < |changes| && c in CallsOf(ObserversIn(sets, bound, changes[k].element), changes[k].box);
      }
    }
  }

  /**
   * The registry's invariant: every element's set exists and was made for
   * that element (so no two elements share one), set names and observer ids
   * come from their counters, and no set holds an observer twice.
   */
  ghost predicate RegistryValid(sets: map<SetId, seq<Observer>>, bound: map<ElementId, SetId>, owner: map<SetId, ElementId>,
                                nextSet: nat, nextObserver: nat)
  {
    && owner.Keys == sets.Keys
    && (forall e :: e in bound ==> bound[e] in sets && owner[bound[e]] == e)
    && (forall s :: s in sets ==> s < nextSet && NoDup(sets[s]))
    && (forall s, o :: s in sets && o in sets[s] ==> o.id < nextObserver)
  }

  /** A new, empty set registered for an element that had none keeps the invariant and changes no other element's observers. */
  lemma AddFreshSet(sets: map<SetId, seq<Observer>>, bound: map<ElementId, SetId>, owner: map<SetId, ElementId>,
                    nextSet: nat, nextObserver: nat, e: ElementId)
    requires RegistryValid(sets, bound, owner, nextSet, nextObserver) && e !in bound
    ensures RegistryValid(sets[nextSet := []], bound[e := nextSet], owner[nextSet := e], nextSet + 1, nextObserver)
    ensures ObserversIn(sets[nextSet := []], bound[e := nextSet], e) == []
    ensures forall x :: x != e ==> ObserversIn(sets[nextSet := []], bound[e := nextSet], x) == ObserversIn(sets, bound, x)
  {
  }

  /** A fresh observer added to an element's own set keeps the invariant and changes no other element's observers. */
  lemma AddToSet(sets: map<SetId, seq<Observer>>, bound: map<ElementId, SetId>, owner: map<SetId, ElementId>,
                 nextSet: nat, nextObserver: nat, e: ElementId, o: Observer)
    requires RegistryValid(sets, bound, owner, nextSet, nextObserver) && e in bound && o.id == nextObserver
    ensures var sets' := sets[bound[e] := sets[bound[e]] + [o]];
            && RegistryValid(sets', bound, owner, nextSet, nextObserver + 1)
            && o !in sets[bound[e]]
            && ObserversIn(sets', bound, e) == ObserversIn(sets, bound, e) + [o]
            && forall x :: x != e ==> ObserversIn(sets', bound, x) == ObserversIn(sets, bound, x)
  {
    NoDupSnoc(sets[bound[e]], o);
  }

  /** The module-level state: `commitId`, `changedElements` and `elementObservers`. */
  class ElementSizes {
    /** A commit is scheduled (`commitId !== null`). */
    var commitPending: bool
    /** `changedElements`, in insertion order. */
    var changed: seq<ElementId>
    /** Every observer set ever made, by name. */
    var sets: map<SetId, seq<Observer>>
    /** `elementObservers`: the set registered for each element. */
    var bound: map<ElementId, SetId>
    var nextSet: nat
    var nextObserver: nat
    /** The element each set was made for. */
    ghost var owner: map<SetId, ElementId>

    ghost predicate Valid()
      reads this
    {
      NoDup(changed) && RegistryValid(sets, bound, owner, nextSet, nextObserver)
    }

    /** The observers an element has now. */
    function ObserversOf(e: ElementId): seq<Observer>
      reads this
    {
      ObserversIn(sets, bound, e)
    }

    constructor()
      ensures Valid() && !commitPending && changed == [] && bound == map[]
    {
      commitPending := false;
      changed := [];
      sets := map[];
      bound := map[];
      nextSet := 0;
      nextObserver := 0;
      owner := map[];
    }

    /** `requestCommit`: mark the element; a timer is started only when none is pending. */
    method RequestCommit(e: ElementId) returns (scheduled: bool)
      requires Valid()
      modifies this
      ensures Valid() && commitPending
      ensures scheduled == !old(commitPending)
      ensures changed == if e in old(changed) then old(changed) else old(changed) + [e]
      ensures sets == old(sets) && bound == old(bound) && owner == old(owner)
      ensures nextSet == old(nextSet) && nextObserver == old(nextObserver)
    {
      if e !in changed {
        NoDupSnoc(changed, e);
        changed := changed + [e];
      }
      scheduled := !commitPending;
      commitPending := true;
    }

    /** The observer calls of a commit over the given snapshot, read from the current registry. */
    method Notify(changes: seq<Change>) returns (calls: seq<Call>)
      ensures calls == CallsFor(sets, bound, changes)
    {
      calls := [];
      var i := 0;
      while i < |changes|
        invariant 0 <= i <= |changes|
        invariant calls == CallsFor(sets, bound, changes[..i])
      {
        assert changes[..i + 1][..i] == changes[..i];
        var change := changes[i];
        var callbacks := ObserversIn(sets, bound, change.element);
        ghost var before := calls;
        var j := 0;
        while j < |callbacks|
          invariant 0 <= j <= |callbacks|
          invariant calls == before + CallsOf(callbacks[..j], change.box)
        {
          var o := callbacks[j];
          assert CallsOf(callbacks[..j + 1], change.box) == CallsOf(callbacks[..j], change.box) + [Call(o.callback, Reported(o.paddingBox, change.box))];
          calls := calls + [Call(o.callback, Reported(o.paddingBox, change.box))];
          j := j + 1;
        }
        assert callbacks[..j] == callbacks;
        i := i + 1;
      }
      assert changes[..i] == changes;
    }

    /**
     * `commit`: the pending mark is cleared, every changed element is measured,
     * the changed set is emptied, and then the observers of each measured
     * element are called; returns the calls in order.
     */
    method Commit(measure: ElementId -> Box) returns (calls: seq<Call>)
      requires Valid()
      modifies this
      ensures Valid() && !commitPending && changed == []
      ensures calls == CallsFor(sets, bound, Snapshot(old(changed), measure))
      ensures sets == old(sets) && bound == old(bound) && owner == old(owner)
      ensures nextSet == old(nextSet) && nextObserver == old(nextObserver)
    {
      commitPending := false;
      var changes := Measure(changed, measure);
      changed := [];
      calls := Notify(changes);
    }

    /**
     * `observeElementSize`: a fresh observer joins the element's set, which is
     * created and registered when the element has none; with `precheck` the
     * element is marked at once. Returns what the dispose function captures.
     */
    method Observe(e: ElementId, callback: CallbackId, paddingBox: bool, precheck: bool) returns (d: Disposer)
      requires Valid()
      modifies this
      ensures Valid()
      ensures d.element == e && d.observer == Observer(old(nextObserver), callback, paddingBox)
      ensures d.observers in sets && bound == old(bound)[e := d.observers] && owner[d.observers] == e
      ensures ObserversOf(e) == old(ObserversOf(e)) + [d.observer]
      ensures forall x :: x != e ==> ObserversOf(x) == old(ObserversOf(x))
      ensures d.observer !in old(ObserversOf(e))
      ensures commitPending == (old(commitPending) || precheck)
      ensures changed == if precheck && e !in old(changed) then old(changed) + [e] else old(changed)
      ensures d.observers == if e in old(bound) then old(bound)[e] else old(nextSet)
      ensures nextSet == if e in old(bound) then old(nextSet) else old(nextSet) + 1
      ensures sets == old(sets)[d.observers := old(ObserversOf(e)) + [d.observer]] && owner == old(owner)[d.observers := e]
      ensures nextObserver == old(nextObserver) + 1
    {
      var observer := Observer(nextObserver, callback, paddingBox);
      var sid := AddObserver(e, observer);
      d := Disposer(e, sid, observer);
      if precheck {
        var _ := RequestCommit(e);
      }
    }

    /** `elementObservers.get(element) || new Set()`, registered when new, then `observers.add(observer)`. */
    method AddObserver(e: ElementId, observer: Observer) returns (sid: SetId)
      requires Valid() && observer.id == nextObserver
      modifies this
      ensures Valid() && nextObserver == old(nextObserver) + 1
      ensures sid in sets && bound == old(bound)[e := sid] && owner[sid] == e
      ensures ObserversOf(e) == old(ObserversOf(e)) + [observer]
      ensures forall x :: x != e ==> ObserversOf(x) == old(ObserversOf(x))
      ensures observer !in old(ObserversOf(e))
      ensures commitPending == old(commitPending) && changed == old(changed)
      ensures sid == if e in old(bound) then old(bound)[e] else old(nextSet)
      ensures nextSet == if e in old(bound) then old(nextSet) else old(nextSet) + 1
      ensures sets == old(sets)[sid := old(ObserversOf(e)) + [observer]] && owner == old(owner)[sid := e]
    {
      sid := RegisterSet(e);
      JoinSet(e, observer);
    }

    /** `elementObservers.get(element) || new Set()`, registered in the map when new. */
    method RegisterSet(e: ElementId) returns (sid: SetId)
      requires Valid()
      modifies this
      ensures Valid() && e in bound && bound == old(bound)[e := sid]
      ensures sid == if e in old(bound) then old(bound)[e] else old(nextSet)
      ensures nextSet == if e in old(bound) then old(nextSet) else old(nextSet) + 1
      ensures sets == (if e in old(bound) then old(sets) else old(sets)[sid := []]) && owner == old(owner)[sid := e]
      ensures forall x :: ObserversOf(x) == old(ObserversOf(x))
      ensures nextObserver == old(nextObserver)
      ensures commitPending == old(commitPending) && changed == old(changed)
    {
      if e !in bound {
        AddFreshSet(sets, bound, owner, nextSet, nextObserver, e);
        sets, bound, owner := sets[nextSet := []], bound[e := nextSet], owner[nextSet := e];
        nextSet := nextSet + 1;
      }
      sid := bound[e];
    }

    /** `observers.add(observer)` on the element's registered set, for a fresh observer. */
    method JoinSet(e: ElementId, observer: Observer)
      requires Valid() && e in bound && observer.id == nextObserver
      modifies this
      ensures Valid() && nextObserver == old(nextObserver) + 1
      ensures bound == old(bound) && owner == old(owner) && nextSet == old(nextSet)
      ensures sets == old(sets)[bound[e] := old(sets)[bound[e]] + [observer]]
      ensures ObserversOf(e) == old(ObserversOf(e)) + [observer]
      ensures forall x :: x != e ==> ObserversOf(x) == old(ObserversOf(x))
      ensures observer !in old(ObserversOf(e))
      ensures commitPending == old(commitPending) && changed == old(changed)
    {
      AddToSet(sets, bound, owner, nextSet, nextObserver, e, observer);
      sets := sets[bound[e] := sets[bound[e]] + [observer]];
      nextObserver := nextObserver + 1;
    }

    /**
     * The dispose function: the observer leaves its set, and the element's
     * map entry is deleted once that set is empty, whichever set the entry
     * holds by then.
     */
    method Dispose(d: Disposer)
      requires Valid() && d.observers in sets && owner[d.observers] == d.element
      modifies this
      ensures Valid() && owner == old(owner)
      ensures sets == old(sets)[d.observers := RemoveFirst(old(sets)[d.observers], d.observer)]
      ensures bound == if sets[d.observers] == [] then old(bound) - {d.element} else old(bound)
      ensures d.observer !in sets[d.observers]
      ensures old(bound)[d.element := d.observers] == old(bound) ==>
                ObserversOf(d.element) == RemoveFirst(old(ObserversOf(d.element)), d.observer)
      ensures forall x :: x != d.element ==> ObserversOf(x) == old(ObserversOf(x))
      ensures commitPending == old(commitPending) && changed == old(changed)
      ensures nextSet == old(nextSet) && nextObserver == old(nextObserver)
    {
      RemoveFirstNoDup(sets[d.observers], d.observer);
      sets := sets[d.observers := RemoveFirst(sets[d.observers], d.observer)];
      if |sets[d.observers]| == 0 {
        bound := bound - {d.element};
      }
    }

    /**
     * `tapElementSize`: registers a plain observer and returns the element's
     * current pair for the same box.
     */
    method TapElementSize(e: ElementId, callback: CallbackId, paddingBox: bool, current: Box)
      returns (size: (int, int), d: Disposer)
      requires Valid()
      modifies this
      ensures Valid()
      ensures size == Reported(paddingBox, current)
      ensures d.element == e && d.observer == Observer(old(nextObserver), callback, paddingBox)
      ensures d.observers in sets && owner[d.observers] == e
      ensures ObserversOf(e) == old(ObserversOf(e)) + [d.observer]
      ensures forall x :: x != e ==> ObserversOf(x) == old(ObserversOf(x))
      ensures commitPending == old(commitPending) && changed == old(changed)
      ensures bound == old(bound)[e := d.observers]
      ensures d.observers == if e in old(bound) then old(bound)[e] else old(nextSet)
      ensures nextSet == if e in old(bound) then old(nextSet) else old(nextSet) + 1
      ensures sets == old(sets)[d.observers := old(ObserversOf(e)) + [d.observer]] && owner == old(owner)[d.observers := e]
      ensures nextObserver == old(nextObserver) + 1
    {
      d := Observe(e, callback, paddingBox, false);
      size := if paddingBox then current.client else current.offset;
    }

    /**
     * An effect that observes an element and is then cleaned up leaves every
     * element's observers as they were.
     */
    method ObserveThenDispose(e: ElementId, callback: CallbackId, paddingBox: bool)
      requires Valid()
      modifies this
      ensures Valid()
      ensures forall x :: ObserversOf(x) == old(ObserversOf(x))
      ensures commitPending == old(commitPending) && changed == old(changed)
    {
      ghost var before := ObserversOf(e);
      var d := Observe(e, callback, paddingBox, false);
      Dispose(d);
      RemoveFirstOfSnoc(before, d.observer);
    }
  }

  /**
   * A dispose function called a second time, after its element was dropped
   * and observed again, finds its own set still empty and so deletes the
   * element's new entry: the live observer is no longer reached.
   */
  method StaleDisposeDropsLiveEntry(r: ElementSizes, e: ElementId, callback: CallbackId, paddingBox: bool)
    returns (d1: Disposer, d2: Disposer)
    requires r.Valid() && e !in r.bound
    modifies r
    ensures r.Valid()
    ensures d1.observers != d2.observers && d2.observers in r.sets && d2.observer in r.sets[d2.observers]
    ensures r.ObserversOf(e) == []
  {
    d1 := r.Observe(e, callback, paddingBox, false);
    r.Dispose(d1);
    d2 := r.Observe(e, callback, paddingBox, false);
    r.Dispose(d1);
  }

  /** The snapshot loop of `commit`. */
  method Measure(elements: seq<ElementId>, measure: ElementId -> Box) returns (changes: seq<Change>)
    ensures changes == Snapshot(elements, measure)
  {
    changes := [];
    var i := 0;
    while i < |elements|
      invariant 0 <= i <= |elements|
      invariant changes == Snapshot(elements[..i], measure)
    {
      changes := changes + [Change(elements[i], measure(elements[i]))];
      i := i + 1;
    }
    assert elements[..i] == elements;
  }
}

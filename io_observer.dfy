/** The bookkeeping of the IntersectionObserver polyfill in
    keeper/static/keeper/inherit/scripts/unt.js: the list of observed
    targets with their last entries, the queue of entries not yet
    reported, the registry of observers that have targets, the
    threshold-crossing test and the scan that decides which new entries
    are queued. The DOM measurements a scan takes are its inputs. */
module IoObserver {
  import opened Wrappers
  import opened IoGeometry
  import opened IoOptions

  /** A DOM node: its identity and its `nodeType` (1 for an element). */
  datatype Node = Node(id: nat, nodeType: int)

  /** One observation target with the entry last computed for it. */
  datatype Observation = Observation(element: Node, entry: Option<Entry>)

  /** What the DOM says about one target during a scan: the time of the
      reading, the target's rectangle, whether the root contains it, and
      the clipped intersection found by walking its ancestors (nothing when
      it is hidden or clipped away). */
  datatype Measurement = Measurement(time: real, targetRect: Rect, rootContainsTarget: bool, clipped: Option<Rect>)

  const CallbackError: string := "callback must be a function"
  const RootError: string := "root must be an Element"
  const TargetError: string := "target must be an Element"

  predicate DistinctTargets(ts: seq<Observation>)
  {
    forall i, j :: 0 <= i < j < |ts| ==> ts[i].element != ts[j].element
  }

  predicate Observed(ts: seq<Observation>, target: Node)
  {
    exists i :: 0 <= i < |ts| && ts[i].element == target
  }

  /** `filter(item => item.element != target)`. */
  function WithoutTarget(ts: seq<Observation>, target: Node): (r: seq<Observation>)
    ensures |r| <= |ts|
    ensures forall i :: 0 <= i < |r| ==> r[i].element != target && r[i] in ts
    ensures forall i :: 0 <= i < |ts| && ts[i].element != target ==> ts[i] in r
  {
    if |ts| == 0 then []
    else
      var rest := WithoutTarget(ts[..|ts| - 1], target);
      var last := ts[|ts| - 1];
      if last.element != target then rest + [last] else rest
  }

  /** Removing one target keeps the others distinct. */
  lemma {:induction false} WithoutTargetDistinct(ts: seq<Observation>, target: Node)
    requires DistinctTargets(ts)
    ensures DistinctTargets(WithoutTarget(ts, target))
  {
    if |ts| > 0 {
      var init := ts[..|ts| - 1];
      WithoutTargetDistinct(init, target);
      var rest := WithoutTarget(init, target);
      var last := ts[|ts| - 1];
      if last.element != target {
        forall i | 0 <= i < |rest|
          ensures rest[i].element != last.element
        {
          var k :| 0 <= k < |init| && init[k] == rest[i];
        }
      }
    }
  }

  // ----- threshold crossing -----

  /** The ratio compared by the crossing test: the entry's ratio when it
      intersects, -1 when it does not or there is no entry. */
  function CompareRatio(e: Option<Entry>): real
  {
    if e.Some? && e.value.isIntersecting then e.value.intersectionRatio else -1.0
  }

  /** Threshold `t` is touched or crossed between the two ratios. */
  predicate CrossesAt(t: real, oldRatio: real, newRatio: real)
  {
    t == oldRatio || t == newRatio || (t < oldRatio) != (t < newRatio)
  }

  /** What `_hasCrossedThreshold` answers: the ratios differ and some
      threshold equals one of them or lies between them. */
  predicate Crossed(thresholds: seq<real>, oldRatio: real, newRatio: real)
  {
    oldRatio != newRatio && exists i :: 0 <= i < |thresholds| && CrossesAt(thresholds[i], oldRatio, newRatio)
  }

  /** A threshold is crossed exactly when one lies in the closed range
      between two different ratios; so the test does not depend on which
      ratio is the old one. */
  lemma CrossedBetween(thresholds: seq<real>, oldRatio: real, newRatio: real)
    ensures Crossed(thresholds, oldRatio, newRatio) <==>
      oldRatio != newRatio
      && (exists i :: 0 <= i < |thresholds| && Min(oldRatio, newRatio) <= thresholds[i] <= Max(oldRatio, newRatio))
    ensures Crossed(thresholds, oldRatio, newRatio) == Crossed(thresholds, newRatio, oldRatio)
  {
    forall i | 0 <= i < |thresholds|
      ensures CrossesAt(thresholds[i], oldRatio, newRatio) <==> Min(oldRatio, newRatio) <= thresholds[i] <= Max(oldRatio, newRatio)
      ensures CrossesAt(thresholds[i], oldRatio, newRatio) <==> CrossesAt(thresholds[i], newRatio, oldRatio)
    {
    }
  }

  // ----- the registry -----

  /** The page-wide list that keeps observers with targets alive. */
  class Registry {
    var observers: seq<IntersectionObserver>

    ghost predicate Valid()
      reads this
    {
      forall i, j :: 0 <= i < j < |observers| ==> observers[i] != observers[j]
    }

    constructor ()
      ensures Valid() && observers == []
    {
      observers := [];
    }
  }

  /** `registry.indexOf(o)`: the first position of `o`, or -1. */
  function IndexOf(os: seq<IntersectionObserver>, o: IntersectionObserver): (k: int)
    ensures -1 <= k < |os|
    ensures k == -1 <==> o !in os
    ensures k >= 0 ==> os[k] == o && o !in os[..k]
  {
    if |os| == 0 then -1
    else if os[0] == o then 0
    else
      var k := IndexOf(os[1..], o);
      assert os[1..][..if k < 0 then 0 else k] == os[1..if k < 0 then 1 else k + 1];
      if k == -1 then -1 else k + 1
  }

  // ----- the observer -----

  class IntersectionObserver {
    const registry: Registry
    const root: Option<Node>
    const thresholds: seq<real>
    const rootMarginValues: seq<Margin>
    var observationTargets: seq<Observation>
    var queuedEntries: seq<Entry>
    /** Whether the page is being watched for changes (listeners or polling). */
    var monitoring: bool
    /** The batches handed to the callback, oldest first. */
    var delivered: seq<seq<Entry>>

    /** Targets are distinct, and the observer is registered and
        monitoring exactly while it has targets. */
    ghost predicate Valid()
      reads this, registry
    {
      registry.Valid() && |rootMarginValues| >= 4
      && DistinctTargets(observationTargets)
      && (this in registry.observers <==> |observationTargets| > 0)
      && (monitoring <==> |observationTargets| > 0)
    }

    constructor (registry: Registry, root: Option<Node>, thresholds: seq<real>, margins: seq<Margin>)
      requires registry.Valid() && |margins| >= 4
      ensures Valid()
      ensures this.registry == registry && this.root == root
      ensures this.thresholds == thresholds && rootMarginValues == margins
      ensures observationTargets == [] && queuedEntries == [] && delivered == []
    {
      this.registry := registry;
      this.root := root;
      this.thresholds := thresholds;
      rootMarginValues := margins;
      observationTargets := [];
      queuedEntries := [];
      monitoring := false;
      delivered := [];
      new;
      assert this !in registry.observers;
    }

    /** `_registerInstance`: added to the registry unless already there. */
    method RegisterInstance()
      requires registry.Valid()
      modifies registry
      ensures registry.Valid()
      ensures registry.observers == if this in old(registry.observers) then old(registry.observers) else old(registry.observers) + [this]
    {
      if IndexOf(registry.observers, this) < 0 {
        registry.observers := registry.observers + [this];
      }
    }

    /** `_unregisterInstance`: removed from the registry if there. */
    method UnregisterInstance()
      requires registry.Valid()
      modifies registry
      ensures registry.Valid() && this !in registry.observers
      ensures forall o :: o != this ==> (o in registry.observers <==> o in old(registry.observers))
    {
      var index := IndexOf(registry.observers, this);
      if index != -1 {
        var os := registry.observers;
        registry.observers := os[..index] + os[index + 1..];
        assert forall k :: 0 <= k < |registry.observers| ==>
          registry.observers[k] == (if k < index then os[k] else os[k + 1]);
        assert forall o :: o in registry.observers <==> o in os && o != this by {
          forall o | o in os && o != this
            ensures o in registry.observers
          {
            var k :| 0 <= k < |os| && os[k] == o;
            assert k != index;
            if k < index {
              assert registry.observers[k] == o;
            } else {
              assert registry.observers[k - 1] == o;
            }
          }
        }
      }
    }

    /** `observe`: nothing happens for a target already observed; anything
        but an element throws; an element is appended without an entry and
        the observer is registered. */
    method Observe(target: Option<Node>) returns (error: Option<string>)
      requires Valid()
      modifies this, registry
      ensures Valid()
      ensures queuedEntries == old(queuedEntries) && delivered == old(delivered)
      ensures target.Some? && Observed(old(observationTargets), target.value) ==>
        error == None && observationTargets == old(observationTargets) && registry.observers == old(registry.observers)
      ensures (target.None? || (!Observed(old(observationTargets), target.value) && target.value.nodeType != 1)) ==>
        error == Some(TargetError) && observationTargets == old(observationTargets) && registry.observers == old(registry.observers)
      ensures target.Some? && !Observed(old(observationTargets), target.value) && target.value.nodeType == 1 ==>
        error == None && observationTargets == old(observationTargets) + [Observation(target.value, None)]
        && this in registry.observers && monitoring
        && forall o :: o != this ==> (o in registry.observers <==> o in old(registry.observers))
    {
      if target.Some? && Observed(observationTargets, target.value) {
        return None;
      }
      if !(target.Some? && target.value.nodeType == 1) {
        return Some(TargetError);
      }
      RegisterInstance();
      observationTargets := observationTargets + [Observation(target.value, None)];
      monitoring := true;
      error := None;
    }

    /** `unobserve`: the target is dropped; an observer left without
        targets leaves the registry. */
    method Unobserve(target: Node)
      requires Valid()
      modifies this, registry
      ensures Valid()
      ensures observationTargets == WithoutTarget(old(observationTargets), target)
      ensures !Observed(observationTargets, target)
      ensures queuedEntries == old(queuedEntries) && delivered == old(delivered)
      ensures forall o :: o != this ==> (o in registry.observers <==> o in old(registry.observers))
    {
      WithoutTargetDistinct(observationTargets, target);
      observationTargets := WithoutTarget(observationTargets, target);
      if |observationTargets| == 0 {
        monitoring := false;
        UnregisterInstance();
      }
    }

    /** `disconnect`: every target dropped, the observer unregistered. */
    method Disconnect()
      requires Valid()
      modifies this, registry
      ensures Valid()
      ensures observationTargets == [] && this !in registry.observers && !monitoring
      ensures queuedEntries == old(queuedEntries) && delivered == old(delivered)
      ensures forall o :: o != this ==> (o in registry.observers <==> o in old(registry.observers))
    {
      observationTargets := [];
      monitoring := false;
      UnregisterInstance();
    }

    /** `takeRecords`: the queued entries, in order; the queue is left
        empty. */
    method TakeRecords() returns (records: seq<Entry>)
      modifies this`queuedEntries
      ensures records == old(queuedEntries) && queuedEntries == []
    {
      records := queuedEntries;
      queuedEntries := [];
    }

    /** `_hasCrossedThreshold`, scanning the thresholds in order. */
    method HasCrossedThreshold(oldEntry: Option<Entry>, newEntry: Entry) returns (crossed: bool)
      ensures crossed == Crossed(thresholds, CompareRatio(oldEntry), CompareRatio(Some(newEntry)))
    {
      var oldRatio := if oldEntry.Some? && oldEntry.value.isIntersecting then oldEntry.value.intersectionRatio else -1.0;
      var newRatio := if newEntry.isIntersecting then newEntry.intersectionRatio else -1.0;
      if oldRatio == newRatio {
        return false;
      }
      var i := 0;
      while i < |thresholds|
        invariant 0 <= i <= |thresholds|
        invariant forall k :: 0 <= k < i ==> !CrossesAt(thresholds[k], oldRatio, newRatio)
      {
        var threshold := thresholds[i];
        if threshold == oldRatio || threshold == newRatio || (threshold < oldRatio) != (threshold < newRatio) {
          return true;
        }
        i := i + 1;
      }
      return false;
    }

    /** One target of `_checkForIntersections`: its new entry, and that
        entry again when it is to be queued. */
    method ScanTarget(rootIsInDom: bool, rootRect: Rect, measure: Node -> Measurement, item: Observation)
      returns (next: Observation, queued: seq<Entry>)
      ensures (next, queued) == ScanOne(thresholds, rootIsInDom, rootRect, measure, item)
    {
      var m := measure(item.element);
      var intersection := if rootIsInDom && m.rootContainsTarget then m.clipped else None;
      var newEntry := MakeEntry(m.time, item.element.id, rootRect, m.targetRect, intersection);
      var queueIt: bool;
      if item.entry.None? {
        queueIt := true;
      } else if rootIsInDom && m.rootContainsTarget {
        queueIt := HasCrossedThreshold(item.entry, newEntry);
      } else {
        queueIt := item.entry.value.isIntersecting;
      }
      next := Observation(item.element, Some(newEntry));
      queued := if queueIt then [newEntry] else [];
    }

    /** The loop of `_checkForIntersections`: each target, in order, gets
        its new entry, and the entries to report join the queue. */
    method ScanTargets(rootIsInDom: bool, rootRect: Rect, measure: Node -> Measurement)
      modifies this`observationTargets, this`queuedEntries
      ensures var scan := Scan(thresholds, rootIsInDom, rootRect, measure, old(observationTargets));
        observationTargets == scan.0 && queuedEntries == old(queuedEntries) + scan.1
    {
      ghost var targets := observationTargets;
      ghost var queue := queuedEntries;
      var i := 0;
      while i < |observationTargets|
        invariant 0 <= i <= |targets| == |observationTargets|
        invariant observationTargets == Scan(thresholds, rootIsInDom, rootRect, measure, targets[..i]).0 + targets[i..]
        invariant queuedEntries == queue + Scan(thresholds, rootIsInDom, rootRect, measure, targets[..i]).1
      {
        ghost var done := Scan(thresholds, rootIsInDom, rootRect, measure, targets[..i]);
        assert observationTargets[i] == targets[i];
        var next, queued := ScanTarget(rootIsInDom, rootRect, measure, observationTargets[i]);
        ScanStep(thresholds, rootIsInDom, rootRect, measure, targets, i);
        ReplaceNext(done.0, targets[i..], next);
        queuedEntries := queuedEntries + queued;
        observationTargets := observationTargets[i := next];
        assert targets[i..][1..] == targets[i + 1..];
        i := i + 1;
      }
      assert targets[..i] == targets;
    }

    /** `_checkForIntersections`: every target gets a new entry; it is
        queued when it is the target's first, when the root contains the
        target and a threshold was crossed, or when the target had been
        intersecting and the root no longer holds it. A non-empty queue is
        then handed to the callback and emptied. */
    method CheckForIntersections(rootIsInDom: bool, rootBase: Rect, measure: Node -> Measurement)
      requires Valid()
      modifies this`observationTargets, this`queuedEntries, this`delivered
      ensures Valid()
      ensures var scan := Scan(thresholds, rootIsInDom, RootRect(rootIsInDom, rootBase, rootMarginValues), measure, old(observationTargets));
        observationTargets == scan.0 && queuedEntries == []
        && delivered == old(delivered) + (if old(queuedEntries) + scan.1 == [] then [] else [old(queuedEntries) + scan.1])
    {
      var rootRect := if rootIsInDom then ExpandRectByRootMargin(rootBase, rootMarginValues) else EmptyRect;
      assert rootRect == RootRect(rootIsInDom, rootBase, rootMarginValues);
      ghost var targets := observationTargets;
      ScanTargets(rootIsInDom, rootRect, measure);
      ScanDistinct(thresholds, rootIsInDom, rootRect, measure, targets);
      if |queuedEntries| > 0 {
        var records := TakeRecords();
        delivered := delivered + [records];
      }
    }
  }

  /** The root rectangle of a scan: the root's box grown by the margins
      when the root is in the document, the empty rectangle otherwise. */
  function RootRect(rootIsInDom: bool, rootBase: Rect, margins: seq<Margin>): Rect
    requires |margins| >= 4
  {
    if rootIsInDom then ExpandRectByRootMargin(rootBase, margins) else EmptyRect
  }

  /** The scan of one target: its new observation and the entry it
      queues, if any. */
  function ScanOne(thresholds: seq<real>, rootIsInDom: bool, rootRect: Rect, measure: Node -> Measurement, item: Observation): (Observation, seq<Entry>)
  {
    var m := measure(item.element);
    var inView := rootIsInDom && m.rootContainsTarget;
    var newEntry := MakeEntry(m.time, item.element.id, rootRect, m.targetRect, if inView then m.clipped else None);
    var queueIt :=
      if item.entry.None? then true
      else if inView then Crossed(thresholds, CompareRatio(item.entry), CompareRatio(Some(newEntry)))
      else item.entry.value.isIntersecting;
    (Observation(item.element, Some(newEntry)), if queueIt then [newEntry] else [])
  }

  /** The scan of a target list, in order: the new observations and the
      queued entries. */
  function Scan(thresholds: seq<real>, rootIsInDom: bool, rootRect: Rect, measure: Node -> Measurement, ts: seq<Observation>): (r: (seq<Observation>, seq<Entry>))
    ensures |r.0| == |ts|
  {
    if |ts| == 0 then ([], [])
    else
      var init := Scan(thresholds, rootIsInDom, rootRect, measure, ts[..|ts| - 1]);
      var one := ScanOne(thresholds, rootIsInDom, rootRect, measure, ts[|ts| - 1]);
      (init.0 + [one.0], init.1 + one.1)
  }

  lemma ScanStep(thresholds: seq<real>, rootIsInDom: bool, rootRect: Rect, measure: Node -> Measurement, ts: seq<Observation>, i: nat)
    requires i < |ts|
    ensures var one := ScanOne(thresholds, rootIsInDom, rootRect, measure, ts[i]);
      Scan(thresholds, rootIsInDom, rootRect, measure, ts[..i + 1])
        == (Scan(thresholds, rootIsInDom, rootRect, measure, ts[..i]).0 + [one.0],
            Scan(thresholds, rootIsInDom, rootRect, measure, ts[..i]).1 + one.1)
  {
    assert ts[..i + 1][..i] == ts[..i];
  }

  /** Replacing the first element after a prefix. */
  lemma ReplaceNext<T>(done: seq<T>, rest: seq<T>, x: T)
    requires |rest| > 0
    ensures (done + rest)[|done| := x] == done + [x] + rest[1..]
  {
  }

  /** A scan keeps the targets and their order; only the entries change. */
  lemma {:induction false} ScanKeepsElements(thresholds: seq<real>, rootIsInDom: bool, rootRect: Rect, measure: Node -> Measurement, ts: seq<Observation>)
    ensures var r := Scan(thresholds, rootIsInDom, rootRect, measure, ts).0;
      forall i :: 0 <= i < |ts| ==> r[i].element == ts[i].element && r[i].entry.Some?
  {
    if |ts| > 0 {
      var init := ts[..|ts| - 1];
      ScanKeepsElements(thresholds, rootIsInDom, rootRect, measure, init);
      var r := Scan(thresholds, rootIsInDom, rootRect, measure, ts).0;
      forall i | 0 <= i < |ts| - 1
        ensures r[i].element == ts[i].element && r[i].entry.Some?
      {
        assert ts[i] == init[i];
      }
    }
  }

  /** A scan keeps distinct targets distinct. */
  lemma ScanDistinct(thresholds: seq<real>, rootIsInDom: bool, rootRect: Rect, measure: Node -> Measurement, ts: seq<Observation>)
    requires DistinctTargets(ts)
    ensures DistinctTargets(Scan(thresholds, rootIsInDom, rootRect, measure, ts).0)
  {
    ScanKeepsElements(thresholds, rootIsInDom, rootRect, measure, ts);
  }

  /** The first scan after targets are observed queues one entry per new
      target, in the targets' order. */
  lemma {:induction false} FirstScanQueuesAll(thresholds: seq<real>, rootIsInDom: bool, rootRect: Rect, measure: Node -> Measurement, ts: seq<Observation>)
    requires forall i :: 0 <= i < |ts| ==> ts[i].entry.None?
    ensures var r := Scan(thresholds, rootIsInDom, rootRect, measure, ts);
      |r.1| == |ts| && forall i :: 0 <= i < |ts| ==> r.0[i].entry == Some(r.1[i]) && r.1[i].target == ts[i].element.id
  {
    if |ts| > 0 {
      var init := ts[..|ts| - 1];
      FirstScanQueuesAll(thresholds, rootIsInDom, rootRect, measure, init);
      var r := Scan(thresholds, rootIsInDom, rootRect, measure, ts);
      forall i | 0 <= i < |ts| - 1
        ensures r.0[i].entry == Some(r.1[i]) && r.1[i].target == ts[i].element.id
      {
        assert ts[i] == init[i];
      }
    }
  }

  /** A target that was intersecting and that the root no longer holds
      queues an entry reporting it as not intersecting. */
  lemma LeavingTargetReported(thresholds: seq<real>, rootIsInDom: bool, rootRect: Rect, measure: Node -> Measurement, item: Observation)
    requires item.entry.Some? && item.entry.value.isIntersecting
    requires !(rootIsInDom && measure(item.element).rootContainsTarget)
    ensures var one := ScanOne(thresholds, rootIsInDom, rootRect, measure, item);
      |one.1| == 1 && !one.1[0].isIntersecting && one.1[0].intersectionRatio == 0.0
  {
  }

  /** `new IntersectionObserver(callback, options)`: a callback that is
      not a function, a root that is not an element, a malformed margin or
      threshold each throw, in that order of checking; otherwise the
      observer starts without targets. */
  method NewIntersectionObserver(registry: Registry, callbackIsFunction: bool, root: Option<Node>, rootMargin: string, threshold: ThresholdOption)
    returns (r: Result<IntersectionObserver>)
    requires registry.Valid()
    ensures !callbackIsFunction ==> r == Throws(CallbackError)
    ensures callbackIsFunction && root.Some? && root.value.nodeType != 1 ==> r == Throws(RootError)
    ensures callbackIsFunction && (root.None? || root.value.nodeType == 1) ==>
      (ParseRootMargin(rootMargin).Throws? ==> r == Throws(RootMarginError))
      && (ParseRootMargin(rootMargin).Ok? && InitThresholds(threshold).Throws? ==> r == Throws(ThresholdError))
      && (ParseRootMargin(rootMargin).Ok? && InitThresholds(threshold).Ok? ==>
            r.Ok? && fresh(r.value) && r.value.Valid() && r.value.registry == registry
            && r.value.root == root && r.value.delivered == []
            && r.value.rootMarginValues == ParseRootMargin(rootMargin).value
            && r.value.thresholds == InitThresholds(threshold).value
            && r.value.observationTargets == [] && r.value.queuedEntries == [])
  {
    if !callbackIsFunction {
      return Throws(CallbackError);
    }
    if root.Some? && root.value.nodeType != 1 {
      return Throws(RootError);
    }
    var margins := ParseRootMargin(rootMargin);
    if margins.Throws? {
      return Throws(margins.message);
    }
    var ts := InitThresholds(threshold);
    if ts.Throws? {
      ThresholdsNormalised(threshold);
      return Throws(ts.message);
    }
    var o := new IntersectionObserver(registry, root, ts.value, margins.value);
    r := Ok(o);
  }
}

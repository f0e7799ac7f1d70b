/**
  The lifecycle of a component manager, stated on values.

  A registered component is described by a `Descriptor`: the capabilities
  (interfaces) its type provides, the capabilities its injectable fields
  require, whether it has a Start and a Stop operation, and what those
  operations return (the component's own code, abstracted to an outcome).
  A `Record` pairs a descriptor with the manager's two status flags.

  The functions here say what one Start or one Stop sweep does to a sequence
  of records kept in registration order, which lifecycle calls it makes and
  in which order, and what it returns; dependency resolution is stated as
  the set of providers of a slot. The classes in module ComponentManager are
  proved against these functions.
*/
module Lifecycle {

  /** The name of an interface a component may provide or require. */
  type Capability = string

  datatype Descriptor = Descriptor(
    provided: set<Capability>,  // interfaces the component's type satisfies
    slots: seq<Capability>,     // interface types of its injectable fields, in field order
    hasStart: bool,
    hasStop: bool,
    startFails: bool,           // its Start returns an error
    stopFails: bool)            // its Stop returns an error

  datatype Record = Record(desc: Descriptor, started: bool, stopped: bool)

  /** A lifecycle call the manager makes on the component at `index`. */
  datatype Event = StartCall(index: nat) | StopCall(index: nat)

  datatype Error =
    | Unsatisfied(consumer: nat, capability: Capability)
    | Ambiguous(consumer: nat, capability: Capability, providers: set<nat>)
    | StartFailed(component: nat)
    | StopFailed(components: seq<nat>)

  datatype Outcome = Pass | Fail(error: Error)

  datatype Result<T> = Ok(value: T) | Err(error: Error)

  /** A component is only ever stopped after it was started. */
  ghost predicate Consistent(rs: seq<Record>) {
    forall j :: 0 <= j < |rs| ==> rs[j].stopped ==> rs[j].started
  }

  ghost predicate NoneStarted(rs: seq<Record>) {
    forall j :: 0 <= j < |rs| ==> !rs[j].started
  }

  // ---------------------------------------------------------------------
  // Dependency resolution

  /** The registered components, other than the consumer `i`, that provide `cap`. */
  function Providers(ds: seq<Descriptor>, i: nat, cap: Capability): set<nat> {
    set j | 0 <= j < |ds| && j != i && cap in ds[j].provided
  }

  predicate Unique(p: set<nat>) {
    p != {} && forall a, b :: a in p && b in p ==> a == b
  }

  /** The error reported for a slot whose providers are not exactly one. */
  function ResolveError(ds: seq<Descriptor>, i: nat, cap: Capability): (e: Error)
    ensures (e.Unsatisfied? || e.Ambiguous?) && e.consumer == i && e.capability == cap
    ensures e.Unsatisfied? <==> Providers(ds, i, cap) == {}
    ensures e.Ambiguous? ==> e.providers == Providers(ds, i, cap)
  {
    var p := Providers(ds, i, cap);
    if p == {} then Unsatisfied(i, cap) else Ambiguous(i, cap, p)
  }

  /** Every injectable field of every component has exactly one provider. */
  ghost predicate Resolvable(ds: seq<Descriptor>) {
    forall i, cap :: 0 <= i < |ds| && cap in ds[i].slots ==> Unique(Providers(ds, i, cap))
  }

  /**
    The position, in `slots`, of the first field of component `i` that has
    no provider or several, or |slots| if every one has exactly one.
  */
  function FirstUnresolvedSlot(ds: seq<Descriptor>, i: nat, slots: seq<Capability>): (k: nat)
    ensures k <= |slots|
    ensures forall t :: 0 <= t < k ==> Unique(Providers(ds, i, slots[t]))
    ensures k < |slots| ==> !Unique(Providers(ds, i, slots[k]))
  {
    if slots == [] then 0
    else if !Unique(Providers(ds, i, slots[0])) then 0
    else 1 + FirstUnresolvedSlot(ds, i, slots[1..])
  }

  /**
    `e` reports the first injectable field of component `i`, in field
    order, that has no provider or several.
  */
  ghost predicate UnresolvedAt(ds: seq<Descriptor>, i: nat, e: Error) {
    && i < |ds|
    && var k := FirstUnresolvedSlot(ds, i, ds[i].slots);
    && k < |ds[i].slots|
    && e == ResolveError(ds, i, ds[i].slots[k])
  }

  /**
    `e` reports the first component, in registration order, one of whose
    injectable fields has no provider or several.
  */
  ghost predicate FirstUnresolved(ds: seq<Descriptor>, e: Error) {
    && (e.Unsatisfied? || e.Ambiguous?)
    && UnresolvedAt(ds, e.consumer, e)
    && forall j, cap :: 0 <= j < e.consumer && cap in ds[j].slots ==> Unique(Providers(ds, j, cap))
  }

  /** A reported unresolved field refutes resolvability. */
  lemma FirstUnresolvedRefutes(ds: seq<Descriptor>, e: Error)
    requires FirstUnresolved(ds, e)
    ensures !Resolvable(ds)
  {
  }

  /**
    When a field of one of the first `n` components has no provider or
    several, there is a first such component, and a report naming it.
  */
  lemma {:induction false} UnresolvedIsReported(ds: seq<Descriptor>, n: nat)
    requires n <= |ds|
    requires exists i, cap :: 0 <= i < n && cap in ds[i].slots && !Unique(Providers(ds, i, cap))
    ensures exists e :: FirstUnresolved(ds, e)
  {
    if exists i, cap :: 0 <= i < n - 1 && cap in ds[i].slots && !Unique(Providers(ds, i, cap)) {
      UnresolvedIsReported(ds, n - 1);
    } else {
      var slots := ds[n - 1].slots;
      var cap :| cap in slots && !Unique(Providers(ds, n - 1, cap));
      var k := FirstUnresolvedSlot(ds, n - 1, slots);
      assert k < |slots| by {
        var t :| 0 <= t < |slots| && slots[t] == cap;
      }
      assert FirstUnresolved(ds, ResolveError(ds, n - 1, slots[k]));
    }
  }

  // ---------------------------------------------------------------------
  // Start: registration order, fail fast

  predicate StartFails(d: Descriptor) {
    d.hasStart && d.startFails
  }

  /** The position of the first component whose Start fails, or |rs| if none does. */
  function FirstStartFailure(rs: seq<Record>): (k: nat)
    ensures k <= |rs|
    ensures forall j :: 0 <= j < k ==> !StartFails(rs[j].desc)
    ensures k < |rs| ==> StartFails(rs[k].desc)
  {
    if rs == [] then 0
    else if StartFails(rs[0].desc) then 0
    else 1 + FirstStartFailure(rs[1..])
  }

  /** The records after a Start sweep: every component before the failing one is marked started. */
  function AfterStart(rs: seq<Record>): (r: seq<Record>)
    ensures |r| == |rs|
    ensures forall j :: 0 <= j < |rs| ==> r[j].desc == rs[j].desc && r[j].stopped == rs[j].stopped
    ensures forall j :: 0 <= j < |rs| ==> r[j].started == (rs[j].started || j < FirstStartFailure(rs))
    ensures Consistent(rs) ==> Consistent(r)
  {
    var k := FirstStartFailure(rs);
    seq(|rs|, j requires 0 <= j < |rs| => if j < k then rs[j].(started := true) else rs[j])
  }

  function StartResult(rs: seq<Record>): (r: Outcome)
    ensures r == Pass <==> forall j :: 0 <= j < |rs| ==> !StartFails(rs[j].desc)
    ensures r.Fail? ==> r.error == StartFailed(FirstStartFailure(rs)) && FirstStartFailure(rs) < |rs|
  {
    var k := FirstStartFailure(rs);
    if k < |rs| then Fail(StartFailed(k)) else Pass
  }

  /** The Start calls made on the first `hi` components, in registration order. */
  function StartCalls(rs: seq<Record>, hi: nat): seq<Event>
    requires hi <= |rs|
  {
    if hi == 0 then []
    else StartCalls(rs, hi - 1) + (if rs[hi - 1].desc.hasStart then [StartCall(hi - 1)] else [])
  }

  /** The Start calls of one sweep: up to and including the failing component. */
  function StartLog(rs: seq<Record>): seq<Event> {
    var k := FirstStartFailure(rs);
    StartCalls(rs, if k < |rs| then k + 1 else |rs|)
  }

  /** A sweep that passed every component before `k` and stopped at a failing `k` (or ran to the end) is the one specified. */
  lemma StartSweep(rs: seq<Record>, now: seq<Record>, k: nat)
    requires k <= |rs| == |now|
    requires forall j :: 0 <= j < k ==> !StartFails(rs[j].desc)
    requires k < |rs| ==> StartFails(rs[k].desc)
    requires forall j :: 0 <= j < |rs| ==> now[j] == if j < k then rs[j].(started := true) else rs[j]
    ensures k == FirstStartFailure(rs)
    ensures now == AfterStart(rs)
    ensures StartResult(rs) == if k < |rs| then Fail(StartFailed(k)) else Pass
    ensures StartLog(rs) == StartCalls(rs, if k < |rs| then k + 1 else k)
  {
  }

  // ---------------------------------------------------------------------
  // Stop: reverse registration order, only started components, best effort

  predicate StopsAt(r: Record) {
    r.started && r.desc.hasStop
  }

  /** The records after a Stop sweep: every started component with a Stop is marked stopped. */
  function AfterStop(rs: seq<Record>): (r: seq<Record>)
    ensures |r| == |rs|
    ensures forall j :: 0 <= j < |rs| ==> r[j].desc == rs[j].desc && r[j].started == rs[j].started
    ensures forall j :: 0 <= j < |rs| ==> r[j].stopped == (rs[j].stopped || StopsAt(rs[j]))
    ensures Consistent(rs) ==> Consistent(r)
  {
    seq(|rs|, j requires 0 <= j < |rs| => if StopsAt(rs[j]) then rs[j].(stopped := true) else rs[j])
  }

  /** The Stop calls made on the components at `lo` and after, highest index first. */
  function StopCalls(rs: seq<Record>, lo: nat): seq<Event>
    requires lo <= |rs|
    decreases |rs| - lo
  {
    if lo == |rs| then []
    else StopCalls(rs, lo + 1) + (if StopsAt(rs[lo]) then [StopCall(lo)] else [])
  }

  /** The components at `lo` and after whose Stop call fails, highest index first. */
  function StopFailures(rs: seq<Record>, lo: nat): seq<nat>
    requires lo <= |rs|
    decreases |rs| - lo
  {
    if lo == |rs| then []
    else StopFailures(rs, lo + 1) + (if StopsAt(rs[lo]) && rs[lo].desc.stopFails then [lo] else [])
  }

  function StopResult(rs: seq<Record>): Outcome {
    var f := StopFailures(rs, 0);
    if f == [] then Pass else Fail(StopFailed(f))
  }

  /** A sweep that marked exactly the started components with a Stop is the one specified. */
  lemma StopSweep(rs: seq<Record>, now: seq<Record>)
    requires |now| == |rs|
    requires forall j :: 0 <= j < |rs| ==> now[j] == if StopsAt(rs[j]) then rs[j].(stopped := true) else rs[j]
    ensures now == AfterStop(rs)
  {
  }
}

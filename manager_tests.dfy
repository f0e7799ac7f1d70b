/**
  The two scenarios of the component manager's tests, replayed on the model
  and proved: two components injected into each other and run through Start
  and Stop, and a component stopped before it was ever started.
*/
module ManagerTests {
  import opened Lifecycle
  import opened ComponentManager
  import opened LifecycleProperties

  /** Component1: satisfies Interface1, injects an Interface2, has a Start and no Stop. */
  const Component1Shape := Descriptor({"Interface1"}, ["Interface2"], true, false, false, false)

  /** Component2: satisfies Interface2, injects an Interface1, has a Start and a Stop. */
  const Component2Shape := Descriptor({"Interface2"}, ["Interface1"], true, true, false, false)

  /** Component3: no interfaces and no injectable fields, a Start and a Stop that record being called. */
  const Component3Shape := Descriptor({}, [], true, true, false, false)

  const PairShapes := [Component1Shape, Component2Shape]

  /** Each injectable field of Component1 and Component2 has exactly one provider: the other component. */
  lemma PairProviders()
    ensures forall i, cap :: 0 <= i < 2 && cap in PairShapes[i].slots ==> Providers(PairShapes, i, cap) == {1 - i}
    ensures Resolvable(PairShapes)
  {
  }

  /** What the test looks at after each call: the error returned and the component's two flags. */
  datatype Observation = Observation(result: Outcome, stopped: bool, started: bool)

  /**
    Start over Component1 and Component2, neither started, calls both Starts
    in order and succeeds; the Stop after it calls Component2's Stop only
    and succeeds.
  */
  lemma PairSweeps(rs: seq<Record>)
    requires |rs| == 2 && rs[0] == Record(Component1Shape, false, false) && rs[1] == Record(Component2Shape, false, false)
    ensures StartResult(rs) == Pass
    ensures StartLog(rs) == [StartCall(0), StartCall(1)]
    ensures StopCalls(AfterStart(rs), 0) == [StopCall(1)]
    ensures StopResult(AfterStart(rs)) == Pass
  {
    assert FirstStartFailure(rs[1..]) == 1;
    assert StartCalls(rs, 1) == [StartCall(0)];
    var rs1 := AfterStart(rs);
    assert rs1 == [Record(Component1Shape, true, false), Record(Component2Shape, true, false)];
    assert StopCalls(rs1, 1) == [StopCall(1)];
    assert StopFailures(rs1, 1) == [];
  }

  /** Start over Component3, not started, starts it and succeeds; the Stop after it stops it and succeeds. */
  lemma SingleSweeps(rs: seq<Record>)
    requires rs == [Record(Component3Shape, false, false)]
    ensures StartResult(rs) == Pass
    ensures AfterStart(rs) == [Record(Component3Shape, true, false)]
    ensures StopResult(AfterStart(rs)) == Pass
    ensures AfterStop(AfterStart(rs)) == [Record(Component3Shape, true, true)]
  {
    assert FirstStartFailure(rs) == 1;
    var rs1 := AfterStart(rs);
    assert rs1 == [Record(Component3Shape, true, false)];
    assert StopFailures(rs1, 1) == [];
  }

  /**
    A new manager into which Component1 and Component2 are injected: the
    injection succeeds and binds each one's injectable field to the other.
  */
  method InjectPair() returns (cm: Manager, c1: Component, c2: Component, injected: Outcome)
    ensures fresh(cm) && fresh(c1) && fresh(c2)
    ensures injected == Pass
    ensures "Interface2" in c1.bound && c1.bound["Interface2"] == c2
    ensures "Interface1" in c2.bound && c2.bound["Interface1"] == c1
    ensures cm.Valid() && cm.log == []
    ensures |cm.components| == 2 && cm.components[0] == c1 && cm.components[1] == c2
    ensures c1.desc == Component1Shape && c2.desc == Component2Shape
    ensures !c1.started && !c1.stopped && !c2.started && !c2.stopped
  {
    c1 := new Component(Component1Shape);
    c2 := new Component(Component2Shape);
    cm := new Manager();
    injected := cm.Inject([c1, c2]);
    assert cm.Descriptors() == PairShapes;
    PairProviders();
    assert cm.WiredAt(0, "Interface2") && cm.WiredAt(1, "Interface1");
  }

  /**
    Component1 and Component2 are injected into each other, and Start and
    Stop then both succeed. Start is called on both in registration order;
    Stop is called on Component2 only, since Component1 has no Stop.
  */
  method InjectStartStop() returns (injected: Outcome, crossBound: bool, startResult: Outcome, stopResult: Outcome, ghost calls: seq<Event>)
    ensures injected == Pass && crossBound
    ensures startResult == Pass && stopResult == Pass
    ensures calls == [StartCall(0), StartCall(1), StopCall(1)]
  {
    var cm, c1, c2;
    cm, c1, c2, injected := InjectPair();
    crossBound := "Interface2" in c1.bound && c1.bound["Interface2"] == c2
      && "Interface1" in c2.bound && c2.bound["Interface1"] == c1;
    ghost var rs := cm.Records();
    PairSweeps(rs);
    startResult := cm.Start();
    stopResult := cm.Stop();
    calls := cm.log;
  }

  /**
    A Stop before any Start succeeds and leaves the component neither
    stopped nor started; a later Start succeeds and starts it; a Stop after
    that succeeds and stops it.
  */
  method NoCallStopIfNoCallStart() returns (observed: seq<Observation>)
    ensures observed == [
      Observation(Pass, false, false),
      Observation(Pass, false, true),
      Observation(Pass, true, true)]
  {
    var c := new Component(Component3Shape);
    var cm := new Manager();
    var injected := cm.Inject([c]);

    ghost var rs := cm.Records();
    assert rs == [Record(Component3Shape, false, false)];
    StopBeforeStartIsNoop(rs);
    var err := cm.Stop();
    var first := Observation(err, c.stopped, c.started);

    SingleSweeps(rs);
    err := cm.Start();
    var second := Observation(err, c.stopped, c.started);

    err := cm.Stop();
    observed := [first, second, Observation(err, c.stopped, c.started)];
  }
}

/**
  What one Start or Stop sweep, and sequences of them, promise: which
  lifecycle calls are made and in which order, that Stop before Start
  changes nothing, that Stop only reaches started components and is not cut
  short by a failing Stop, and the happy path where every Start and every
  Stop succeeds.
*/
module LifecycleProperties {
  import opened Lifecycle

  // ---------------------------------------------------------------------
  // Which calls a sweep makes

  /** Start calls go to exactly the components with a Start among the first `hi`. */
  lemma {:induction false} StartCallsExactly(rs: seq<Record>, hi: nat, e: Event)
    requires hi <= |rs|
    ensures e in StartCalls(rs, hi) <==> e.StartCall? && e.index < hi && rs[e.index].desc.hasStart
  {
    if hi > 0 {
      StartCallsExactly(rs, hi - 1, e);
    }
  }

  /** Start calls are made in strictly increasing registration order. */
  lemma {:induction false} StartCallsAscending(rs: seq<Record>, hi: nat)
    requires hi <= |rs|
    ensures forall a, b :: 0 <= a < b < |StartCalls(rs, hi)| ==>
      StartCalls(rs, hi)[a].index < StartCalls(rs, hi)[b].index
  {
    if hi > 0 {
      StartCallsAscending(rs, hi - 1);
      var prev := StartCalls(rs, hi - 1);
      forall a | 0 <= a < |prev| ensures prev[a].index < hi - 1 {
        StartCallsExactly(rs, hi - 1, prev[a]);
      }
    }
  }

  /** Stop calls go to exactly the started components with a Stop, at `lo` and after. */
  lemma {:induction false} StopCallsExactly(rs: seq<Record>, lo: nat, e: Event)
    requires lo <= |rs|
    ensures e in StopCalls(rs, lo) <==> e.StopCall? && lo <= e.index < |rs| && StopsAt(rs[e.index])
    decreases |rs| - lo
  {
    if lo < |rs| {
      StopCallsExactly(rs, lo + 1, e);
    }
  }

  /** Stop calls are made in strictly decreasing registration order. */
  lemma {:induction false} StopCallsDescending(rs: seq<Record>, lo: nat)
    requires lo <= |rs|
    ensures forall a, b :: 0 <= a < b < |StopCalls(rs, lo)| ==>
      StopCalls(rs, lo)[a].index > StopCalls(rs, lo)[b].index
    decreases |rs| - lo
  {
    if lo < |rs| {
      StopCallsDescending(rs, lo + 1);
      var prev := StopCalls(rs, lo + 1);
      forall a | 0 <= a < |prev| ensures prev[a].index > lo {
        StopCallsExactly(rs, lo + 1, prev[a]);
      }
    }
  }

  /** A Stop failure is reported for exactly the called components whose Stop fails. */
  lemma {:induction false} StopFailuresExactly(rs: seq<Record>, lo: nat, j: nat)
    requires lo <= |rs|
    ensures j in StopFailures(rs, lo) <==> j < |rs| && StopCall(j) in StopCalls(rs, lo) && rs[j].desc.stopFails
    decreases |rs| - lo
  {
    StopCallsExactly(rs, lo, StopCall(j));
    if lo < |rs| {
      StopFailuresExactly(rs, lo + 1, j);
    }
  }

  /**
    Stop is best effort: every started component with a Stop is called,
    whatever the other components' Stop calls return, and the sweep fails
    exactly when one of those calls fails.
  */
  lemma StopIsBestEffort(rs: seq<Record>)
    ensures forall j :: 0 <= j < |rs| && StopsAt(rs[j]) ==> StopCall(j) in StopCalls(rs, 0)
    ensures StopResult(rs) == Pass <==> forall j :: 0 <= j < |rs| && StopsAt(rs[j]) ==> !rs[j].desc.stopFails
  {
    forall j | 0 <= j < |rs| && StopsAt(rs[j]) ensures StopCall(j) in StopCalls(rs, 0) {
      StopCallsExactly(rs, 0, StopCall(j));
    }
    var f := StopFailures(rs, 0);
    if f != [] {
      StopFailuresExactly(rs, 0, f[0]);
      StopCallsExactly(rs, 0, StopCall(f[0]));
    }
    forall j | 0 <= j < |rs| && StopsAt(rs[j]) && rs[j].desc.stopFails ensures f != [] {
      StopFailuresExactly(rs, 0, j);
    }
  }

  // ---------------------------------------------------------------------
  // Stop before Start

  /** Stop on a manager whose components were never started calls nothing, changes nothing and succeeds. */
  lemma StopBeforeStartIsNoop(rs: seq<Record>)
    requires NoneStarted(rs)
    ensures AfterStop(rs) == rs
    ensures StopCalls(rs, 0) == []
    ensures StopResult(rs) == Pass
  {
    if StopCalls(rs, 0) != [] {
      StopCallsExactly(rs, 0, StopCalls(rs, 0)[0]);
    }
    StopIsBestEffort(rs);
  }

  /** A Start after an early Stop behaves exactly as if the Stop had not happened. */
  lemma StartAfterEarlyStop(rs: seq<Record>)
    requires NoneStarted(rs)
    ensures AfterStart(AfterStop(rs)) == AfterStart(rs)
    ensures StartLog(AfterStop(rs)) == StartLog(rs)
    ensures StartResult(AfterStop(rs)) == StartResult(rs)
  {
    StopBeforeStartIsNoop(rs);
  }

  // ---------------------------------------------------------------------
  // Stop after Start

  /**
    Stop after a Start that failed at component k calls Stop on exactly the
    components before k that have one, never on k or later components, and
    leaves k and later components untouched.
  */
  lemma StopAfterFailedStart(rs: seq<Record>)
    requires NoneStarted(rs)
    ensures var k := FirstStartFailure(rs);
      forall e :: e in StopCalls(AfterStart(rs), 0) <==>
        e.StopCall? && e.index < k && rs[e.index].desc.hasStop
    ensures var k := FirstStartFailure(rs);
      forall j :: k <= j < |rs| ==> AfterStop(AfterStart(rs))[j] == rs[j]
  {
    var rs1 := AfterStart(rs);
    forall e ensures e in StopCalls(rs1, 0) <==> e.StopCall? && e.index < FirstStartFailure(rs) && rs[e.index].desc.hasStop {
      StopCallsExactly(rs1, 0, e);
    }
  }

  // ---------------------------------------------------------------------
  // The happy path

  ghost predicate AllSucceed(rs: seq<Record>) {
    forall j :: 0 <= j < |rs| ==>
      rs[j].desc.hasStart && rs[j].desc.hasStop && !rs[j].desc.startFails && !rs[j].desc.stopFails
  }

  lemma {:induction false} StartCallsInOrder(rs: seq<Record>, hi: nat)
    requires hi <= |rs|
    requires AllSucceed(rs)
    ensures StartCalls(rs, hi) == seq(hi, t requires 0 <= t < hi => StartCall(t))
  {
    if hi > 0 {
      StartCallsInOrder(rs, hi - 1);
    }
  }

  lemma {:induction false} StopCallsInReverseOrder(rs: seq<Record>, lo: nat)
    requires lo <= |rs|
    requires forall j :: lo <= j < |rs| ==> StopsAt(rs[j])
    ensures StopCalls(rs, lo) == seq(|rs| - lo, t requires 0 <= t < |rs| - lo => StopCall(|rs| - 1 - t))
    decreases |rs| - lo
  {
    if lo < |rs| {
      StopCallsInReverseOrder(rs, lo + 1);
    }
  }

  /**
    When every component has a Start and a Stop and all of them succeed,
    Start calls every Start once in registration order, Stop then calls
    every Stop once in the exact reverse order, both succeed and every
    component ends started and stopped.
  */
  lemma HappyPath(rs: seq<Record>)
    requires NoneStarted(rs) && AllSucceed(rs)
    ensures StartResult(rs) == Pass
    ensures StartLog(rs) == seq(|rs|, t requires 0 <= t < |rs| => StartCall(t))
    ensures StopCalls(AfterStart(rs), 0) == seq(|rs|, t requires 0 <= t < |rs| => StopCall(|rs| - 1 - t))
    ensures StopResult(AfterStart(rs)) == Pass
    ensures forall j :: 0 <= j < |rs| ==>
      AfterStop(AfterStart(rs))[j].started && AfterStop(AfterStart(rs))[j].stopped
  {
    StartCallsInOrder(rs, |rs|);
    var rs1 := AfterStart(rs);
    StopCallsInReverseOrder(rs1, 0);
    StopIsBestEffort(rs1);
  }
}

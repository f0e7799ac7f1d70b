/**
  The component manager: a registry of components in registration order
  that wires each injectable field to the one other component providing its
  interface, then starts the components in registration order and stops
  them in reverse order.

  A `Component` stands for a caller-constructed component value: its shape
  is fixed (`desc`), the manager writes references into its injectable
  fields (`bound`) and keeps its status flags (`started`, `stopped`). Start
  and Stop are proved against the functions of module Lifecycle applied to
  the records before the call; Inject is proved against `Resolvable` and
  `FirstUnresolved` of the descriptors after the new components are
  appended. The ghost `log` holds the lifecycle calls made on components,
  in the order they were made.
*/
module ComponentManager {
  import opened Lifecycle

  class Component {
    const desc: Descriptor
    var bound: map<Capability, Component>  // the references written into its injectable fields
    var started: bool
    var stopped: bool

    constructor (desc: Descriptor)
      ensures this.desc == desc && bound == map[] && !started && !stopped
    {
      this.desc := desc;
      bound := map[];
      started := false;
      stopped := false;
    }
  }

  class Manager {
    var components: seq<Component>
    ghost var log: seq<Event>

    /** The shapes of the registered components, in registration order. */
    function Descriptors(): (ds: seq<Descriptor>)
      reads `components
      ensures |ds| == |components|
      ensures forall j :: 0 <= j < |ds| ==> ds[j] == components[j].desc
    {
      var cs := components;
      seq(|cs|, j requires 0 <= j < |cs| => cs[j].desc)
    }

    /** The registered components with their status flags, in registration order. */
    ghost function Records(): (rs: seq<Record>)
      reads `components, components
      ensures |rs| == |components|
      ensures forall j :: 0 <= j < |rs| ==>
        rs[j] == Record(components[j].desc, components[j].started, components[j].stopped)
    {
      var cs := components;
      seq(|cs|, j requires 0 <= j < |cs| reads cs => Record(cs[j].desc, cs[j].started, cs[j].stopped))
    }

    /** No component is registered twice. */
    ghost predicate Valid()
      reads `components
    {
      forall a, b :: 0 <= a < b < |components| ==> components[a] != components[b]
    }

    /** Field `cap` of component `i` holds the one other registered component that provides `cap`. */
    ghost predicate WiredAt(i: nat, cap: Capability)
      requires i < |components|
      reads `components, {components[i]}`bound
    {
      var p := Providers(Descriptors(), i, cap);
      && cap in components[i].bound
      && Unique(p)
      && forall q :: q in p ==> components[i].bound[cap] == components[q]
    }

    /** Every injectable field of every registered component is wired. */
    ghost predicate Wired()
      reads `components, components`bound
    {
      forall i, cap {:trigger WiredAt(i, cap)} ::
        0 <= i < |components| && cap in components[i].desc.slots ==> WiredAt(i, cap)
    }

    /** Wiring every field needs every field to have exactly one provider. */
    lemma WiredIsResolvable()
      requires Wired()
      ensures Resolvable(Descriptors())
    {
      forall i, cap | 0 <= i < |components| && cap in components[i].desc.slots
        ensures Unique(Providers(Descriptors(), i, cap))
      {
        assert WiredAt(i, cap);
      }
    }

    constructor ()
      ensures Valid() && components == [] && log == []
    {
      components := [];
      log := [];
    }

    /**
      The one other registered component that provides `cap` for a field of
      component `i`, or the error naming the consumer, the interface and,
      when there are several, all of them.
    */
    method FindProvider(i: nat, cap: Capability) returns (r: Result<nat>)
      requires i < |components|
      ensures r.Ok? <==> Unique(Providers(Descriptors(), i, cap))
      ensures r.Ok? ==> Providers(Descriptors(), i, cap) == {r.value}
      ensures r.Err? ==> r.error == ResolveError(Descriptors(), i, cap)
    {
      var found: set<nat> := {};
      var last := 0;
      var j := 0;
      while j < |components|
        invariant 0 <= j <= |components|
        invariant found == set q | 0 <= q < j && q != i && cap in components[q].desc.provided
        invariant found != {} ==> last in found
      {
        if j != i && cap in components[j].desc.provided {
          found := found + {j};
          last := j;
        }
        j := j + 1;
      }
      assert found == Providers(Descriptors(), i, cap);
      if found == {} {
        r := Err(Unsatisfied(i, cap));
      } else if found == {last} {
        r := Ok(last);
      } else {
        r := Err(Ambiguous(i, cap, found));
      }
    }

    /**
      Binds the injectable fields of component `i`, in field order, each to
      its one provider, stopping at the first field that has none or several.
    */
    method BindFields(i: nat) returns (r: Outcome)
      requires Valid() && i < |components|
      modifies {components[i]}`bound
      ensures r.Pass? ==> forall cap :: cap in components[i].desc.slots ==> WiredAt(i, cap)
      ensures r.Fail? ==> UnresolvedAt(Descriptors(), i, r.error)
    {
      var c := components[i];
      var s := 0;
      while s < |c.desc.slots|
        invariant 0 <= s <= |c.desc.slots|
        invariant forall t :: 0 <= t < s ==> WiredAt(i, c.desc.slots[t])
      {
        var cap := c.desc.slots[s];
        var found := FindProvider(i, cap);
        if found.Err? {
          assert FirstUnresolvedSlot(Descriptors(), i, c.desc.slots) == s;
          return Fail(found.error);
        }
        c.bound := c.bound[cap := components[found.value]];
        s := s + 1;
      }
      return Pass;
    }

    /**
      Registers `cs` after the components already registered, then binds
      every injectable field of every registered component, in registration
      and field order, stopping at the first field that cannot be bound.
    */
    method Inject(cs: seq<Component>) returns (r: Outcome)
      requires Valid()
      requires forall a, b :: 0 <= a < b < |cs| ==> cs[a] != cs[b]
      requires forall a :: 0 <= a < |cs| ==> cs[a] !in components
      modifies this`components, components`bound, cs`bound
      ensures Valid()
      ensures components == old(components) + cs
      ensures r.Pass? ==> Wired()
      ensures r.Fail? ==> FirstUnresolved(Descriptors(), r.error)
      ensures r.Pass? <==> Resolvable(Descriptors())
    {
      components := components + cs;
      var all := components;
      assert Valid();
      var i := 0;
      while i < |all|
        invariant 0 <= i <= |all|
        invariant components == all
        invariant forall j, cap :: 0 <= j < i && cap in all[j].desc.slots ==> WiredAt(j, cap)
      {
        r := BindFields(i);
        if r.Fail? {
          FirstUnresolvedRefutes(Descriptors(), r.error);
          return;
        }
        i := i + 1;
      }
      r := Pass;
      WiredIsResolvable();
    }

    /**
      Walks the components in registration order, calling Start on each that
      has one and marking each started, and stops at the first Start that
      fails, whose error it returns.
    */
    method Start() returns (r: Outcome)
      requires Valid()
      modifies this`log, components`started
      ensures Valid()
      ensures Records() == AfterStart(old(Records()))
      ensures log == old(log) + StartLog(old(Records()))
      ensures r == StartResult(old(Records()))
    {
      ghost var rs := Records();
      var k;
      r, k := StartWalk(rs);
      StartSweep(rs, Records(), k);
    }

    /**
      The walk behind Start: `k` is where it ended, the first component
      whose Start fails or the end of the sequence. Every component before
      `k` is now started, and the calls made are those of the first `k`
      components, plus the failing call at `k`.
    */
    method StartWalk(ghost rs: seq<Record>) returns (r: Outcome, k: nat)
      requires Valid() && |rs| == |components|
      requires forall j :: 0 <= j < |rs| ==> rs[j].desc == components[j].desc && rs[j].started == components[j].started
      modifies this`log, components`started
      ensures k <= |rs|
      ensures forall j :: 0 <= j < k ==> !StartFails(rs[j].desc)
      ensures k < |rs| ==> StartFails(rs[k].desc)
      ensures r == if k < |rs| then Fail(StartFailed(k)) else Pass
      ensures forall j :: 0 <= j < |rs| ==> components[j].started == (rs[j].started || j < k)
      ensures log == old(log) + StartCalls(rs, if k < |rs| then k + 1 else k)
    {
      ghost var calls: seq<Event> := [];
      var cs := components;
      k := 0;
      r := Pass;
      while k < |cs|
        invariant 0 <= k <= |cs| == |rs|
        invariant forall j :: 0 <= j < |cs| ==> cs[j].desc == rs[j].desc
        invariant forall a, b :: 0 <= a < b < |cs| ==> cs[a] != cs[b]
        invariant forall j :: 0 <= j < k ==> !StartFails(rs[j].desc)
        invariant forall j :: 0 <= j < |cs| ==> cs[j].started == (rs[j].started || j < k)
        invariant calls == StartCalls(rs, k)
        invariant r == Pass && log == old(log)
      {
        var c := cs[k];
        if c.desc.hasStart {
          calls := calls + [StartCall(k)];
        }
        if c.desc.hasStart && c.desc.startFails {
          r := Fail(StartFailed(k));
          break;
        }
        c.started := true;
        k := k + 1;
      }
      log := log + calls;
    }

    /**
      Walks the components in reverse registration order and calls Stop on
      each started one that has a Stop, marking it stopped whatever the call
      returns; fails at the end, with every failing component, if any call
      failed.
    */
    method Stop() returns (r: Outcome)
      requires Valid()
      modifies this`log, components`stopped
      ensures Valid()
      ensures Records() == AfterStop(old(Records()))
      ensures log == old(log) + StopCalls(old(Records()), 0)
      ensures r == StopResult(old(Records()))
    {
      ghost var rs := Records();
      ghost var calls: seq<Event> := [];
      var cs := components;
      var failed: seq<nat> := [];
      var i := |cs|;
      while i > 0
        invariant 0 <= i <= |cs|
        invariant forall j :: 0 <= j < |cs| ==> cs[j].stopped == (rs[j].stopped || (i <= j && StopsAt(rs[j])))
        invariant calls == StopCalls(rs, i)
        invariant failed == StopFailures(rs, i)
        invariant log == old(log)
      {
        i := i - 1;
        var c := cs[i];
        if c.started && c.desc.hasStop {
          calls := calls + [StopCall(i)];
          if c.desc.stopFails {
            failed := failed + [i];
          }
          c.stopped := true;
        }
      }
      log := log + calls;
      r := if failed == [] then Pass else Fail(StopFailed(failed));
      StopSweep(rs, Records());
    }
  }
}

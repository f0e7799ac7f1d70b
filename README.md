# Component manager lifecycle, in Dafny

This project models the core of a small Go component manager
(`AndreyBronin/component-manager`, package `component`). Callers hand the
manager their components with `Inject`. The manager:

- keeps the components in registration order;
- binds every field tagged `inject:""` to the one other registered
  component that implements the field's interface type;
- `Start` walks the components in registration order and calls each
  component's `Start` where it has one;
- `Stop` walks them in reverse order and calls `Stop` only on components
  that were started and have one.

The model is reconstructed from the repository's test, `manager_test.go`.
Its two tests fix what the manager must do:

- `TestComponentManager_Inject` injects two components into each other
  and runs them through `Start` and `Stop`.
- `TestComponentManager_NoCallStopIfNoCallStart` stops a component before
  starting it, then starts and stops it.

The manager's own code (`NewManager`, `Inject`, `Start`, `Stop`) is not part
of this model. It is reconstructed here from what those tests require.
Where the tests leave a choice open (what a failing `Start` or `Stop` does, what happens to a field with no
provider or several), the model makes one explicit choice. The model does
not present that choice as something the code promises.

The project has four modules.

- `Lifecycle` (`lifecycle.dfy`) states everything on values.
  - A `Descriptor` is the shape of a component type:
    - the interfaces it implements;
    - the interface types of its injectable fields, in field order;
    - whether it has `Start` and `Stop`;
    - what those return, abstracted to "succeeds" or "fails".
  - A `Record` pairs a descriptor with the manager's `started` and
    `stopped` flags for that component.
  - `Providers`, `ResolveError`, `Resolvable` and `FirstUnresolved` state
    how dependencies are resolved.
  - `FirstStartFailure`, `AfterStart`, `StartResult` and `StartLog` state
    what one `Start` sweep does.
  - `AfterStop`, `StopCalls` and `StopResult` state what one `Stop` sweep
    does.
- `LifecycleProperties` (`lifecycle_properties.dfy`) proves what those
  sweeps promise, one at a time and in sequence: stop before start, start
  after an early stop, stop after a failed start, and the happy path.
- `ComponentManager` (`manager.dfy`) is the imperative manager.
  - A `Component` object has a fixed shape, a map of bound fields
    (`bound`, which `Inject` writes) and its two status flags.
  - A `Manager` object holds the registered components in a sequence. It
    also holds a ghost `log` of the lifecycle calls it has made, in order.
  - `Inject`, `Start` and `Stop` are loops over that sequence, each proved
    against the `Lifecycle` functions.
    - `Start` and `Stop` are proved against those functions applied to the
      records before the call.
    - `Inject` is proved against `Resolvable` and `FirstUnresolved` applied
      to the descriptors after the call, that is, with the new components
      already appended.
- `ManagerTests` (`manager_tests.dfy`) replays the two Go tests on the
  model and proves their assertions.

The model's `started` and `stopped` are the manager's status for a
component:

- `started` is set when the `Start` sweep passes the component (its
  `Start`, if it has one, succeeded).
- `stopped` is set when the `Stop` sweep calls the component's `Stop`.

Component3 in the tests keeps two fields of its own. Its `Start` sets
`started` and its `Stop` sets `stopped`, so for Component3 the two notions
coincide. The test observes exactly those fields.

## Model

| member | source | states |
|---|---|---|
| ComponentManager.Component.constructor | manager_test.go:75 | A new component has nothing bound and is neither started nor stopped, like `&Component1{}`. |
| ComponentManager.Manager.constructor | manager_test.go:74 | A new manager has no components and has made no lifecycle calls. |
| ComponentManager.Manager.FindProvider | manager_test.go:35-37 | A field of interface `cap` of component `i` is served by a component other than `i` exactly when exactly one registered component other than `i` implements `cap`; that one is returned. Component `i` never serves its own field, whether or not it implements `cap`. Otherwise the error names the consumer and the interface, and, when there are several, all of the providers. |
| ComponentManager.Manager.BindFields | manager_test.go:52-54 | Either every injectable field of component `i` is bound to its single provider, or the result reports the first field of `i`, in field order, that has no provider or several. |
| ComponentManager.Manager.Inject | manager_test.go:73-75 | Appends the components to the registration order, keeps identities distinct, and succeeds exactly when every field of every component has exactly one provider. On success every field is bound to that provider. On failure it reports the first component, in registration order, that has a field with no provider or several. |
| ComponentManager.Manager.WiredIsResolvable | manager_test.go:73-75 | A manager whose fields are all bound has exactly one provider for every field. |
| ComponentManager.Manager.Start | manager_test.go:105-108 | The new flags are `AfterStart` of the old records: every component before the first failing `Start` is marked started, and nothing else changes. The calls made are `StartLog`. The result is `StartResult`. |
| ComponentManager.Manager.StartWalk | manager_test.go:105-106 | The loop behind `Start` ends at some `k`: no `Start` before `k` fails and, if `k` is not the end, the one at `k` does. Exactly the components before `k` become started, the calls made are the `Start` calls of the components up to and including `k`, and the error names `k`. |
| ComponentManager.Manager.Stop | manager_test.go:110-113 | The new flags are `AfterStop` of the old records: every started component with a `Stop` is marked stopped, and nothing else changes. The calls made are `StopCalls`. The result is `StopResult`. |
| Lifecycle.ResolveError | manager_test.go:37 | The resolution error names the consumer and the interface. It is `Unsatisfied` exactly when no other component implements the interface; otherwise it is `Ambiguous` and carries every provider. |
| Lifecycle.FirstUnresolvedSlot | manager_test.go:52-54 | The position of the first field, in field order, with no provider or several: every field before it has exactly one provider, and the one at it (if any) does not. |
| Lifecycle.FirstUnresolvedRefutes | manager_test.go:73-75 | A reported unresolved field means not every field can be resolved. |
| Lifecycle.UnresolvedIsReported | manager_test.go:73-75 | Conversely, when some field cannot be resolved, there is a first component to report and a report for it. |
| Lifecycle.FirstStartFailure | manager_test.go:77 | The position of the first component whose `Start` fails: no `Start` before it fails, and the one at it does. |
| Lifecycle.AfterStart | manager_test.go:86-89 | Start sets `started` on every component before the first failure and on no other. It never touches `stopped`, and it keeps "stopped implies started". |
| Lifecycle.StartResult | manager_test.go:105-106 | Start returns no error exactly when no component's `Start` fails; otherwise the error names the first failing component. |
| Lifecycle.AfterStop | manager_test.go:91-94 | Stop sets `stopped` exactly on started components with a `Stop`. It never touches `started`, and it keeps "stopped implies started". |
| LifecycleProperties.StartCallsExactly | manager_test.go:77 | `Start` is called on exactly the components, among those swept, that have a `Start`. |
| LifecycleProperties.StartCallsAscending | manager_test.go:77 | `Start` calls are made in strictly increasing registration order. |
| LifecycleProperties.StopCallsExactly | manager_test.go:65-67 | `Stop` is called on exactly the started components that have a `Stop`. |
| LifecycleProperties.StopCallsDescending | manager_test.go:78 | `Stop` calls are made in strictly decreasing registration order. |
| LifecycleProperties.StopFailuresExactly | manager_test.go:78 | A `Stop` failure is reported for exactly the called components whose `Stop` fails. No `Stop` fails in the tests; this is the model's best-effort failure policy (see "## Left out"). |
| LifecycleProperties.StopIsBestEffort | manager_test.go:78 | Every started component with a `Stop` is called, whatever the others return. Stop returns no error exactly when none of those calls fails. No `Stop` fails in the tests; this is the model's best-effort failure policy (see "## Left out"). |
| LifecycleProperties.StopBeforeStartIsNoop | manager_test.go:96-103 | Stop on components that were never started calls nothing, changes no flag and returns no error. |
| LifecycleProperties.StartAfterEarlyStop | manager_test.go:105-108 | A Start after such a Stop behaves exactly as a Start without it: same flags, same calls, same result. |
| LifecycleProperties.StopAfterFailedStart | manager_test.go:110-113 | After a Start that failed at component k, Stop calls exactly the components before k that have a `Stop`, and leaves k and every later component untouched. |
| LifecycleProperties.StartCallsInOrder | manager_test.go:77 | When every component has a `Start`, the `Start` calls are made once each, in registration order. |
| LifecycleProperties.StopCallsInReverseOrder | manager_test.go:78 | When every component is started and has a `Stop`, the `Stop` calls are made once each, in exact reverse registration order. |
| LifecycleProperties.HappyPath | manager_test.go:105-113 | When every component has a `Start` and a `Stop` and all succeed, Start and Stop both return no error, the calls follow registration order and then its reverse, and every component ends started and stopped. |
| ManagerTests.PairProviders | manager_test.go:27-71 | Component1 implements Interface1 and Component2 implements Interface2. Each one's injectable field therefore has exactly one provider, the other component. |
| ManagerTests.PairSweeps | manager_test.go:35-71 | Start over Component1 and Component2 calls both `Start`s in order and succeeds. The Stop after it calls only Component2's `Stop` and succeeds. |
| ManagerTests.SingleSweeps | manager_test.go:81-94 | Start over Component3 starts it and succeeds. The Stop after it stops it and succeeds. |
| ManagerTests.InjectPair | manager_test.go:73-75 | Injecting Component1 and Component2 succeeds. It binds Component1's `Interface2` field to Component2 and Component2's `Interface1` field to Component1, and it leaves both unstarted. |
| ManagerTests.InjectStartStop | manager_test.go:73-79 | After the injection, Start and Stop both return no error. `Start` is called on Component1 and then Component2. `Stop` is called on Component2 only, because Component1 has no `Stop`. |
| ManagerTests.NoCallStopIfNoCallStart | manager_test.go:96-114 | The three observations of the test, each an (error, `stopped`, `started`) triple, are (none, false, false) after the early Stop, (none, false, true) after Start, and (none, true, true) after the final Stop. |

## Left out

- The manager's source (`NewManager`, `Inject`, `Start`, `Stop`) is not part of this model. Its behaviour is reconstructed from what `manager_test.go` requires.
- Reflection: interface satisfaction and the `inject:""` tag are given as each component's `Descriptor` (implemented interfaces, field interface types). The model does not derive them from Go types.
- `context.Context` arguments, `fmt.Println` output, `Method1`/`Method2` and the unused struct fields (`field1`, `asd`, `started` of Component1, `field2`, `dsa`, `started` of Component2) have no bearing on the lifecycle and are not modelled.
- A component's own `Start`/`Stop` code is abstracted to "succeeds" or "fails". Component1's and Component2's `Start` calling through their injected fields is not modelled.
- Where the tests leave the policy open, the model makes a choice that the shown code does not promise:
  - `Start` stops at the first failing `Start`;
  - `Stop` calls every eligible `Stop` and reports every failure;
  - `Inject` stops at the first field with no provider or several, and reports it;
  - a component with a `Stop` but no `Start` is marked started when the `Start` sweep passes it, with no call, so the next `Stop` calls its `Stop`. No test has such a component.
- The model's `started` is the manager's status, not a component's own field: after `Start` it is true for Component1, whose own `started` field (manager_test.go:39) nothing ever sets; the same holds for Component2 (manager_test.go:56).
- ComponentManager.Manager.Start: does not require the fields to be bound. A component `Start` that uses an unbound field fails in the component's own code, which the model abstracts to the `startFails` outcome.
- ComponentManager.Manager.Inject: requires that the injected components are distinct and not already registered. The model does not cover registering the same object twice.
- Concurrency, and misuse such as injecting after `Start` or starting twice, are not modelled.
- Lifecycle.AfterStop: a repeated `Stop` is not guarded. `StopsAt` looks only at `started` and `Stop`, not at `stopped`, so a second `Stop` calls every started component's `Stop` again.
- Start does not order components by dependency; it follows registration order, as the tests do.

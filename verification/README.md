# event_channel in Dafny

A model of `EventChannel`, an in-process registry of named events. Callers
register a callback under a name, either as a persistent handler (`On`) that
runs on every `Fire`, or as a one-shot handler (`Once`) that has a timeout and
a `Done` channel. `Fire(name, data)` runs the handler synchronously. A
one-shot handler is evicted by the first `Fire` that reaches it. If its
timeout has already elapsed, that `Fire` reports a deadline error and runs
nothing. Otherwise it runs the callback and then closes `Done`. `Has` and
`Remove` query and delete entries.

The model is functional. The registry is an immutable value, every operation
is one atomic transition, and time is an explicit `now` argument.

- `event_channel.dfy`, module `EventChannel`: the data model and the five
  operations. A registry holds three things:
  - `events: map<string, Entry>`;
  - the set of closed `Done` channels;
  - the next fresh channel identity.

  An `Entry` is `Persistent(callback)` or `OneShot(callback, deadline, done)`.
  `Fire` returns the new registry, an `Outcome` (`Ok | NotFound | Expired |
  ClosePanic`) and the callback invocations it made. Each invocation is a
  `(callback, name, payload)` record.
- `lifecycle.dfy`, module `Lifecycle`: the registry invariant `Valid`. It says
  every `Done` channel still reachable from the map is open, was allocated,
  and belongs to one name only. The module proves that every operation
  preserves `Valid`. It also proves lemmas that chain two or three operations
  and trace each kind of entry through its lifecycle. Finally, it restates the
  package's test scenario as a chain of calls and proves the results the test
  expects.
- `session.dfy`, module `Session`: sessions, which are sequences of operations
  interleaved with the passage of time. It proves the properties that only
  show over many operations:
  - the invariant holds forever;
  - a `Done` channel is never closed twice;
  - N fires of a persistent entry make N invocations;
  - an evicted name stays unknown until it is registered again.

Modelling choices:

- **`Done` channels.** Go channels are references. The handle `Once` returns
  shares its `Done` channel with the stored entry, and the caller still holds
  it after `Fire` evicts the entry. So each channel gets an identity, drawn
  from a counter the way `make(chan struct{}, 0)` yields a fresh channel.
  Closed channels are recorded in a set. `IsDone(registry, handle)` is the
  waiter's view of `<-handle.Done`.
- **Closing twice.** In Go, `close` of an already-closed channel panics. The
  model keeps that path as the outcome `ClosePanic`.
  `Session.DoneClosedAtMostOnce` proves that no session of registry
  operations starting from `New` ever reaches it. Such a session contains
  only calls to `On`, `Once`, `Has`, `Remove` and `Fire`. A caller that closes
  a handle's `Done` itself is outside the model (see "Left out").
- **Expiry.** The timeout context's `Err()` is modelled as `now >= deadline`,
  where `deadline = now + timeout` is taken when `Once` is called. A zero or
  negative timeout therefore counts as expired at once, as Go's
  `context.WithTimeout` cancels immediately in that case. A strict
  `now > deadline` reading would let an entry with a zero timeout fire; the
  code does not, and the model follows the code.
- **Callbacks and payloads.** These are opaque numbers, and an invocation is a
  log record.

## Model

| member | source | states |
|---|---|---|
| EventChannel.New | event_channel.go:28-32 | the fresh registry has no entry under any name and no closed channel |
| EventChannel.On | event_channel.go:34-41 | afterwards `name` holds a persistent entry with the given callback, whatever was there before; every other name keeps its entry or stays absent; no channel is opened or closed |
| EventChannel.Once | event_channel.go:43-57 | the returned handle is a one-shot entry with the given callback and deadline `now + timeout`; it is exactly what is now stored under `name`, replacing any prior entry; other names are unchanged; its `Done` channel is the next fresh identity and the allocator advances past it; no channel is closed |
| EventChannel.Has | event_channel.go:59-68 | true exactly when an entry is stored under `name` |
| EventChannel.DeadlinePassed | event_channel.go:91 | the one-shot entry's timeout context reports an error exactly from its deadline on (`deadline <= now`) |
| EventChannel.IsDone | event_channel_test.go:30 | a receive from the handle's `Done` completes exactly when that channel is closed; a persistent entry's `Done` is nil, so it never completes |
| EventChannel.Remove | event_channel.go:70-81 | returns true iff `name` had an entry; afterwards `name` is absent and every other name is unchanged; the closed channels are unchanged, so a removed one-shot entry's `Done` stays open |
| EventChannel.Close | event_channel.go:99 | closing succeeds iff the channel was open, and then adds exactly that channel to the closed set |
| EventChannel.Fire | event_channel.go:83-111 | for callbacks that return: absent name: not-found, no call, registry unchanged. Persistent entry: one call of its callback with the payload, success, registry unchanged. One-shot entry: always evicted, other names untouched. Expired one-shot: deadline error, no call, `Done` left open. Live one-shot: one call, then `Done` is closed; success iff it was open |
| Lifecycle.NewIsEmpty | event_channel.go:28-32 | `New` satisfies the invariant, `Has` is false for every name, and `Fire` of every name reports not-found and changes nothing |
| Lifecycle.OnPreservesValid | event_channel.go:34-41 | `On` preserves the invariant |
| Lifecycle.OncePreservesValid | event_channel.go:43-57 | `Once` preserves the invariant, and the handle it returns has its `Done` open |
| Lifecycle.RemovePreservesValid | event_channel.go:70-81 | `Remove` preserves the invariant |
| Lifecycle.FirePreservesValid | event_channel.go:83-111 | `Fire` preserves the invariant: it closes only the channel of the entry it evicts |
| Lifecycle.FireNeverPanics | event_channel.go:88-101 | under the invariant, `Fire` never closes an already-closed channel |
| Lifecycle.OnThenFire | event_channel.go:104-108 | firing a just-registered persistent entry succeeds, calls its callback once with the payload, and leaves the registry unchanged with the entry still present |
| Lifecycle.OnceThenFireLive | event_channel.go:88-101 | firing a one-shot entry no earlier than its registration and before its deadline succeeds and calls its callback once; the returned handle's `Done` goes from open to closed; the name is gone, and a second `Fire` reports not-found |
| Lifecycle.ExpiryFollowsClock | event_channel.go:47 | a one-shot entry registered with a zero or negative timeout has expired at registration, one with a positive timeout has not, and once expired it stays expired as the clock advances |
| Lifecycle.OnceThenFireExpired | event_channel.go:88-93 | firing a one-shot entry at or after its deadline reports expiry and calls nothing; the handle's `Done` stays open; the name is gone, and a second `Fire` reports not-found |
| Lifecycle.OnceThenRemove | event_channel.go:70-81 | removing a pending one-shot entry reports true and removes the name, and it leaves the handle's `Done` open |
| Lifecycle.RemoveTwice | event_channel.go:70-81 | the first `Remove` reports whether the name was present; an immediate second `Remove` reports false and changes nothing |
| Lifecycle.HasReflectsLifecycle | event_channel.go:59-68 | `Has` is true after `On` or `Once`; it is false after `Remove` and after any `Fire` of a one-shot entry; it stays true after firing a persistent entry; and it is unchanged for every other name |
| Session.Step | event_channel.go:34-111 | only `Fire` yields an outcome and only `Fire` invokes callbacks, at most one per call; `Has` changes nothing and reports presence |
| Session.Run | event_channel.go:34-111 | a session yields one reply per action and at most one invocation per action, and time never runs backwards |
| Session.RunPreservesValid | event_channel.go:88-101 | from a valid registry, every session keeps the invariant, and none of its fires closes a closed channel |
| Session.DoneClosedAtMostOnce | event_channel.go:99 | in every session of registry operations starting from `New`, no `Done` channel is closed twice |
| Session.ClosedOnlyGrows | event_channel.go:99 | a closed `Done` channel stays closed for the rest of any session |
| Session.PersistentFiresN | event_channel.go:104-108 | firing a persistent entry N times gives N successes and exactly N invocations, with the payloads in order, and leaves the registry unchanged |
| Session.AbsentStaysAbsent | event_channel.go:87-111 | an absent name stays absent through any session that does not register it; every `Has` of it reports false, and every `Fire` of it reports not-found |
| Lifecycle.ExpiryScenario | event_channel_test.go:16-49 | the test's sequence of calls for any three distinct names, any timeout, and any sleep at least as long as the timeout: expiry with no call, not-found, success with one call of the persistent callback, true, false, not-found; the one-shot handle's `Done` stays open and the registry ends empty |
| Lifecycle.TestScenario | event_channel_test.go:16-49 | the test's calls with a one-second timeout and a two-second sleep give expiry, not-found, success, true, false, not-found |

## Left out

- The `sync.RWMutex` is left out. Its only purpose is mutual exclusion between
  goroutines, and each operation is modelled as one atomic step.
- The internals of `context.WithTimeout` are left out, and so is the cancel
  function `Once` discards. Expiry is the comparison `now >= deadline`. For a
  positive timeout, Go's timer can report expiry a little after the deadline,
  so the exact boundary is not claimed.
- Go channel semantics beyond open/closed are left out, and so are the test's
  waiter goroutine and its `select`. Both are concurrency.
- Callback side effects and the test's printing are left out. A callback is an
  opaque id, and each run of one is a log record.
- The deadlock when a callback re-enters the registry is left out. It happens
  while the lock is held, so it is a concurrency hazard.
- The error message strings are left out. They become the `Outcome` values.
- The 64-bit `time.Duration` arithmetic is left out. Clock values and timeouts
  are unbounded integers, so `now + timeout` never overflows.
- Session.DoneClosedAtMostOnce: holds only for the registry's own
  operations. Callers touching the handle are left out. The `*Event` that
  `Once` returns is the stored entry itself, and the caller can close or
  reassign its exported `Done` and `Timeout` fields. In the model the handle
  is an immutable record, and a session contains only registry calls. A
  caller that closes `Done` itself and then fires the entry before its
  deadline makes the Go code panic at the `close`.
- EventChannel.Fire: assumes every callback returns. Callbacks that panic or
  never return are left out. This includes a nil `eventFunc`, which `On` and
  `Once` accept. In Go, such a callback panics out of `Fire`. For a one-shot
  entry the panic comes after the entry is deleted and before `Done` is
  closed, so the name is gone and `Done` is never closed.

/**
 A model of the named-event registry `EventChannel` (event_channel.go).

 The registry maps event names to entries. A persistent entry (registered
 with `On`) fires on every `Fire`; a one-shot entry (registered with `Once`)
 carries a deadline and a `Done` channel, is evicted by the first `Fire`
 that reaches it, and invokes its callback only if the deadline has not
 passed. The lock is abstracted away: every operation is one atomic
 transition on an immutable `Registry` value.

 Go channels are references: the handle `Once` returns shares its `Done`
 channel with the stored entry. The model gives every `Done` channel an
 identity (`ChanId`, drawn from `nextChan` the way `make(chan)` yields a
 fresh channel) and records which channels are closed in `closed`.
 */
module EventChannel {

  /** Opaque identity of a registered callback (`eventFunc`). */
  type CallbackId = nat

  /** Opaque value carried by `EventData.Data`. */
  type Payload = nat

  /** Identity of a `Done` channel. */
  type ChanId = nat

  /** One registered handler: `isOnce == false` or `isOnce == true` in the source. */
  datatype Entry =
    | Persistent(callback: CallbackId)
    | OneShot(callback: CallbackId, deadline: int, done: ChanId)

  datatype Registry = Registry(events: map<string, Entry>, closed: set<ChanId>, nextChan: ChanId)

  /** One synchronous call `f(&EventData{Data: payload})` made by `Fire`. */
  datatype Invocation = Invocation(callback: CallbackId, name: string, payload: Payload)

  /** What `Fire` returns. `ClosePanic` is the run-time panic of closing an
      already-closed channel; `FireNeverPanics` shows it cannot happen. */
  datatype Outcome = Ok | NotFound | Expired | ClosePanic

  datatype Option<T> = None | Some(value: T)

  datatype FireResult = FireResult(reg: Registry, outcome: Outcome, calls: seq<Invocation>)

  datatype OnceResult = OnceResult(reg: Registry, handle: Entry)

  datatype RemoveResult = RemoveResult(reg: Registry, removed: bool)

  /** `m'` agrees with `m` on every name other than `name`. */
  ghost predicate SameElsewhere(m: map<string, Entry>, m': map<string, Entry>, name: string)
  {
    forall n :: n != name ==> (n in m <==> n in m') && (n in m ==> m'[n] == m[n])
  }

  /** `ctx.Err() != nil` for the entry's timeout context at time `now`: the
      context reports expiry from its deadline on. */
  predicate DeadlinePassed(e: Entry, now: int): (expired: bool)
    requires e.OneShot?
    ensures expired <==> e.deadline <= now
  {
    now >= e.deadline
  }

  /** Whether a receive `<-handle.Done` completes: the handle's `Done` channel
      is closed. A persistent entry has no `Done` channel (it is nil in Go, and
      receiving from nil blocks forever), so it is never done. */
  predicate IsDone(r: Registry, handle: Entry): (closed: bool)
    ensures handle.Persistent? ==> !closed
    ensures handle.OneShot? ==> (closed <==> handle.done in r.closed)
  {
    handle.OneShot? && handle.done in r.closed
  }

  /** `New`: an empty registry. */
  function New(): (r: Registry)
    ensures forall name :: name !in r.events
    ensures r.closed == {}
  {
    Registry(map[], {}, 0)
  }

  /** `On`: install a persistent entry, replacing whatever was under `name`. */
  function On(r: Registry, name: string, f: CallbackId): (r': Registry)
    ensures name in r'.events && r'.events[name] == Persistent(f)
    ensures SameElsewhere(r.events, r'.events, name)
    ensures r'.closed == r.closed && r'.nextChan == r.nextChan
  {
    r.(events := r.events[name := Persistent(f)])
  }

  /** `Once`: install a one-shot entry with a fresh `Done` channel and deadline
      `now + timeout`, replacing whatever was under `name`, and return it. */
  function Once(r: Registry, name: string, f: CallbackId, timeout: int, now: int): (res: OnceResult)
    ensures res.handle.OneShot? && res.handle.callback == f
    ensures res.handle.deadline == now + timeout
    ensures name in res.reg.events && res.reg.events[name] == res.handle
    ensures SameElsewhere(r.events, res.reg.events, name)
    ensures res.reg.closed == r.closed
    // the `Done` channel is freshly allocated: `make(chan struct{}, 0)`
    ensures res.handle.done == r.nextChan && res.reg.nextChan == r.nextChan + 1
  {
    var e := OneShot(f, now + timeout, r.nextChan);
    OnceResult(Registry(r.events[name := e], r.closed, r.nextChan + 1), e)
  }

  /** `Has`: presence of an entry under `name`; a pure query. */
  function Has(r: Registry, name: string): (present: bool)
    ensures present <==> name in r.events
  {
    name in r.events
  }

  /** `Remove`: delete the entry under `name`, reporting whether there was one.
      A removed one-shot entry's `Done` channel is left open. */
  function Remove(r: Registry, name: string): (res: RemoveResult)
    ensures res.removed <==> name in r.events
    ensures name !in res.reg.events
    ensures SameElsewhere(r.events, res.reg.events, name)
    ensures res.reg.closed == r.closed && res.reg.nextChan == r.nextChan
  {
    if name in r.events then
      RemoveResult(r.(events := r.events - {name}), true)
    else
      RemoveResult(r, false)
  }

  /** `close(ch)`: `None` when `ch` is already closed (Go panics). */
  function Close(closed: set<ChanId>, ch: ChanId): (c: Option<set<ChanId>>)
    ensures c.Some? <==> ch !in closed
    ensures c.Some? ==> ch in c.value && c.value - {ch} == closed
  {
    if ch in closed then None else Some(closed + {ch})
  }

  /** `Fire`: dispatch `payload` to the entry under `name` at time `now`. */
  function Fire(r: Registry, name: string, payload: Payload, now: int): (res: FireResult)
    // absent name: not found, nothing invoked, nothing changed
    ensures name !in r.events ==> res == FireResult(r, NotFound, [])
    // persistent entry: its callback runs once with the payload and the entry stays
    ensures name in r.events && r.events[name].Persistent? ==>
              res.outcome == Ok && res.reg == r
              && res.calls == [Invocation(r.events[name].callback, name, payload)]
    // one-shot entry: evicted whatever the outcome, other names untouched
    ensures name in r.events && r.events[name].OneShot? ==>
              res.reg.events == r.events - {name} && res.reg.nextChan == r.nextChan
    // expired one-shot entry: deadline error, no call, `Done` left open
    ensures name in r.events && r.events[name].OneShot? && DeadlinePassed(r.events[name], now) ==>
              res.outcome == Expired && res.calls == [] && res.reg.closed == r.closed
    // live one-shot entry: callback runs once, then `Done` is closed
    ensures name in r.events && r.events[name].OneShot? && !DeadlinePassed(r.events[name], now) ==>
              res.calls == [Invocation(r.events[name].callback, name, payload)]
              && (res.outcome == Ok <==> r.events[name].done !in r.closed)
              && (res.outcome == Ok ==> res.reg.closed == r.closed + {r.events[name].done})
    ensures res.outcome == Ok || res.outcome == ClosePanic <==> |res.calls| == 1
    ensures |res.calls| <= 1
  {
    if name !in r.events then
      FireResult(r, NotFound, [])
    else
      var e := r.events[name];
      match e
      case Persistent(f) =>
        FireResult(r, Ok, [Invocation(f, name, payload)])
      case OneShot(f, _, done) =>
        var evicted := r.(events := r.events - {name});
        if DeadlinePassed(e, now) then
          FireResult(evicted, Expired, [])
        else
          var calls := [Invocation(f, name, payload)];
          match Close(r.closed, done)
          case None => FireResult(evicted, ClosePanic, calls)
          case Some(closed') => FireResult(evicted.(closed := closed'), Ok, calls)
  }
}

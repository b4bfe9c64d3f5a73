/**
 The registry invariant and the entry lifecycle.

 `Valid` says that every `Done` channel still reachable from the map is open,
 was allocated, and belongs to exactly one name. Every operation keeps it,
 and under it `Fire` never closes a channel twice, so a one-shot entry's
 `Done` is closed at most once. The remaining lemmas chain two or three
 operations and state the lifecycle each kind of entry goes through, ending
 with the sequence of calls the package's test makes.
 */
module Lifecycle {
  import opened EventChannel

  ghost predicate Valid(r: Registry)
  {
    && (forall c :: c in r.closed ==> c < r.nextChan)
    && (forall n :: n in r.events && r.events[n].OneShot? ==>
          r.events[n].done < r.nextChan && r.events[n].done !in r.closed)
    && (forall n, m ::
          n in r.events && m in r.events && n != m && r.events[n].OneShot? && r.events[m].OneShot?
          ==> r.events[n].done != r.events[m].done)
  }

  /** `New` holds no entries: `Has` is false and `Fire` reports not-found for every name. */
  lemma NewIsEmpty(name: string, payload: Payload, now: int)
    ensures Valid(New())
    ensures !Has(New(), name)
    ensures Fire(New(), name, payload, now) == FireResult(New(), NotFound, [])
  {
  }

  lemma OnPreservesValid(r: Registry, name: string, f: CallbackId)
    requires Valid(r)
    ensures Valid(On(r, name, f))
  {
  }

  lemma OncePreservesValid(r: Registry, name: string, f: CallbackId, timeout: int, now: int)
    requires Valid(r)
    ensures Valid(Once(r, name, f, timeout, now).reg)
    ensures !IsDone(Once(r, name, f, timeout, now).reg, Once(r, name, f, timeout, now).handle)
  {
  }

  lemma RemovePreservesValid(r: Registry, name: string)
    requires Valid(r)
    ensures Valid(Remove(r, name).reg)
  {
  }

  /** The one-shot entry was the only holder of its `Done` channel, so closing
      it leaves every channel still in the map open. */
  lemma FirePreservesValid(r: Registry, name: string, payload: Payload, now: int)
    requires Valid(r)
    ensures Valid(Fire(r, name, payload, now).reg)
  {
  }

  /** Under the invariant `Fire` never reaches `close` of a closed channel. */
  lemma FireNeverPanics(r: Registry, name: string, payload: Payload, now: int)
    requires Valid(r)
    ensures Fire(r, name, payload, now).outcome != ClosePanic
  {
  }

  /** A persistent entry fires with its callback and stays registered. */
  lemma OnThenFire(r: Registry, name: string, f: CallbackId, payload: Payload, now: int)
    ensures var r1 := On(r, name, f);
            var res := Fire(r1, name, payload, now);
            res.outcome == Ok && res.reg == r1 && Has(res.reg, name)
            && res.calls == [Invocation(f, name, payload)]
  {
  }

  /** A one-shot entry fired before its deadline runs its callback once, closes
      the `Done` channel of the handle `Once` returned, and is gone afterwards. */
  lemma OnceThenFireLive(r: Registry, name: string, f: CallbackId, timeout: int, t0: int,
                         payload: Payload, t1: int, payload2: Payload, t2: int)
    requires Valid(r)
    requires t0 <= t1 < t0 + timeout
    ensures var o := Once(r, name, f, timeout, t0);
            var res := Fire(o.reg, name, payload, t1);
            && res.outcome == Ok
            && res.calls == [Invocation(f, name, payload)]
            && !IsDone(o.reg, o.handle) && IsDone(res.reg, o.handle)
            && !Has(res.reg, name)
            && Fire(res.reg, name, payload2, t2) == FireResult(res.reg, NotFound, [])
  {
  }

  /** Expiry follows the clock: a one-shot entry registered with a zero or
      negative timeout has expired at the moment it is registered, one with a
      positive timeout has not, and once expired it stays expired. */
  lemma ExpiryFollowsClock(r: Registry, name: string, f: CallbackId, timeout: int, t0: int, t1: int, t2: int)
    requires t1 <= t2
    ensures var h := Once(r, name, f, timeout, t0).handle;
            && (timeout <= 0 ==> DeadlinePassed(h, t0))
            && (timeout > 0 ==> !DeadlinePassed(h, t0))
            && (DeadlinePassed(h, t1) ==> DeadlinePassed(h, t2))
  {
  }

  /** A one-shot entry fired at or after its deadline reports expiry, calls
      nothing, leaves `Done` open, and is gone afterwards. */
  lemma OnceThenFireExpired(r: Registry, name: string, f: CallbackId, timeout: int, t0: int,
                            payload: Payload, t1: int, payload2: Payload, t2: int)
    requires Valid(r)
    requires t1 >= t0 + timeout
    ensures var o := Once(r, name, f, timeout, t0);
            var res := Fire(o.reg, name, payload, t1);
            && res.outcome == Expired
            && res.calls == []
            && !IsDone(res.reg, o.handle)
            && !Has(res.reg, name)
            && Fire(res.reg, name, payload2, t2) == FireResult(res.reg, NotFound, [])
  {
  }

  /** Removing a pending one-shot entry succeeds and leaves its `Done` open. */
  lemma OnceThenRemove(r: Registry, name: string, f: CallbackId, timeout: int, now: int)
    requires Valid(r)
    ensures var o := Once(r, name, f, timeout, now);
            var rm := Remove(o.reg, name);
            rm.removed && !Has(rm.reg, name) && !IsDone(rm.reg, o.handle)
  {
  }

  /** `Remove` reports presence, so an immediate second `Remove` reports false
      and leaves the registry as the first one left it. */
  lemma RemoveTwice(r: Registry, name: string)
    ensures var first := Remove(r, name);
            var second := Remove(first.reg, name);
            first.removed == Has(r, name) && !second.removed && second.reg == first.reg
  {
  }

  /** `Has` after each operation: true after registration, false after
      removal and after any fire of a one-shot entry, unchanged for other names. */
  lemma HasReflectsLifecycle(r: Registry, name: string, other: string, f: CallbackId,
                             timeout: int, payload: Payload, now: int)
    requires other != name
    ensures Has(On(r, name, f), name)
    ensures Has(Once(r, name, f, timeout, now).reg, name)
    ensures !Has(Remove(r, name).reg, name)
    ensures Has(r, name) && r.events[name].OneShot? ==> !Has(Fire(r, name, payload, now).reg, name)
    ensures Has(r, name) && r.events[name].Persistent? ==> Has(Fire(r, name, payload, now).reg, name)
    ensures Has(On(r, name, f), other) == Has(r, other)
    ensures Has(Once(r, name, f, timeout, now).reg, other) == Has(r, other)
    ensures Has(Remove(r, name).reg, other) == Has(r, other)
    ensures Has(Fire(r, name, payload, now).reg, other) == Has(r, other)
  {
  }

  /** The session of the package's test, for any three distinct names, any
      timeout and any sleep at least as long as the timeout. A one-shot entry
      fired once its timeout has elapsed reports expiry, then not-found; a
      persistent entry fires, is removed, and then reports not-found; removing
      a name never registered reports false. Only the persistent callback runs. */
  lemma ExpiryScenario(e1: string, e2: string, e3: string, f1: CallbackId, f2: CallbackId,
                       v1: Payload, v2: Payload, timeout: int, sleep: nat)
    requires e1 != e2 && e2 != e3 && e1 != e3
    requires sleep >= timeout
    ensures var o := Once(New(), e1, f1, timeout, 0);
            var r2 := On(o.reg, e2, f2);
            var fire1 := Fire(r2, e1, v1, sleep);
            var fire2 := Fire(fire1.reg, e1, v1, sleep);
            var fire3 := Fire(fire2.reg, e2, v2, sleep);
            var remove2 := Remove(fire3.reg, e2);
            var remove3 := Remove(remove2.reg, e3);
            var fire4 := Fire(remove3.reg, e2, v2, sleep);
            && fire1.outcome == Expired && fire1.calls == []
            && fire2.outcome == NotFound && fire2.calls == []
            && fire3.outcome == Ok && fire3.calls == [Invocation(f2, e2, v2)]
            && remove2.removed
            && !remove3.removed
            && fire4.outcome == NotFound && fire4.calls == []
            && !IsDone(fire4.reg, o.handle)
            && fire4.reg.events == map[]
  {
  }

  /** `time.Second` in the nanosecond ticks of Go's `time.Duration`. */
  const Second: int := 1_000_000_000

  /** The package's test itself: a one-second timeout and a two-second sleep. */
  lemma TestScenario()
    ensures var o := Once(New(), "event1", 1, Second, 0);
            var r2 := On(o.reg, "event2", 2);
            var fire1 := Fire(r2, "event1", 10, 2 * Second);
            var fire2 := Fire(fire1.reg, "event1", 10, 2 * Second);
            var fire3 := Fire(fire2.reg, "event2", 20, 2 * Second);
            var remove2 := Remove(fire3.reg, "event2");
            var remove3 := Remove(remove2.reg, "event3");
            var fire4 := Fire(remove3.reg, "event2", 20, 2 * Second);
            && fire1.outcome == Expired
            && fire2.outcome == NotFound
            && fire3.outcome == Ok
            && remove2.removed
            && !remove3.removed
            && fire4.outcome == NotFound
  {
    ExpiryScenario("event1", "event2", "event3", 1, 2, 10, 20, Second, 2 * Second);
  }
}

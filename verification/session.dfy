/**
 Sequences of registry operations against an explicit clock.

 A session is what the callers of one `EventChannel` do over time: they
 call its five operations, interleaved with the passage of time (the test's
 `time.Sleep`). `Run` threads the registry through the session and collects
 one reply per action and the log of callback invocations. The lemmas here
 are the properties that only show over many operations: the invariant
 holds forever, `Done` channels are never closed twice, a persistent entry
 fires as often as it is fired, and an evicted name stays unknown until it
 is registered again.
 */
module Session {
  import opened EventChannel
  import opened Lifecycle

  datatype Op =
    | OnOp(name: string, f: CallbackId)
    | OnceOp(name: string, f: CallbackId, timeout: int)
    | HasOp(name: string)
    | RemoveOp(name: string)
    | FireOp(name: string, payload: Payload)

  datatype Action = Do(op: Op) | Sleep(d: nat)

  datatype Reply = Unit | Bool(b: bool) | Handle(e: Entry) | Fired(outcome: Outcome)

  datatype StepResult = StepResult(reg: Registry, reply: Reply, calls: seq<Invocation>)

  datatype Trace = Trace(reg: Registry, now: int, replies: seq<Reply>, calls: seq<Invocation>)

  /** Perform one operation at time `now`. */
  function Step(r: Registry, op: Op, now: int): (s: StepResult)
    ensures op.FireOp? <==> s.reply.Fired?
    ensures !op.FireOp? ==> s.calls == []
    ensures |s.calls| <= 1
    ensures op.HasOp? ==> s.reg == r && s.reply == Bool(op.name in r.events)
  {
    match op
    case OnOp(name, f) => StepResult(On(r, name, f), Unit, [])
    case OnceOp(name, f, timeout) =>
      var o := Once(r, name, f, timeout, now);
      StepResult(o.reg, Handle(o.handle), [])
    case HasOp(name) => StepResult(r, Bool(Has(r, name)), [])
    case RemoveOp(name) =>
      var rm := Remove(r, name);
      StepResult(rm.reg, Bool(rm.removed), [])
    case FireOp(name, payload) =>
      var res := Fire(r, name, payload, now);
      StepResult(res.reg, Fired(res.outcome), res.calls)
  }

  /** Run a session from registry `r` at time `now`. */
  function Run(r: Registry, now: int, acts: seq<Action>): (t: Trace)
    ensures |t.replies| == |acts|
    ensures |t.calls| <= |acts|
    ensures t.now >= now
    decreases |acts|
  {
    if acts == [] then
      Trace(r, now, [], [])
    else
      match acts[0]
      case Sleep(d) =>
        var t := Run(r, now + d, acts[1..]);
        Trace(t.reg, t.now, [Unit] + t.replies, t.calls)
      case Do(op) =>
        var s := Step(r, op, now);
        var t := Run(s.reg, now, acts[1..]);
        Trace(t.reg, t.now, [s.reply] + t.replies, s.calls + t.calls)
  }

  lemma StepPreservesValid(r: Registry, op: Op, now: int)
    requires Valid(r)
    ensures Valid(Step(r, op, now).reg)
    ensures Step(r, op, now).reply != Fired(ClosePanic)
  {
  }

  /** The invariant holds after any session, and no `Fire` in it closes a
      `Done` channel that was already closed. */
  lemma {:induction false} RunPreservesValid(r: Registry, now: int, acts: seq<Action>)
    requires Valid(r)
    ensures Valid(Run(r, now, acts).reg)
    ensures forall i :: 0 <= i < |acts| ==> Run(r, now, acts).replies[i] != Fired(ClosePanic)
    decreases |acts|
  {
    if acts != [] {
      match acts[0]
      case Sleep(d) =>
        RunPreservesValid(r, now + d, acts[1..]);
      case Do(op) =>
        StepPreservesValid(r, op, now);
        RunPreservesValid(Step(r, op, now).reg, now, acts[1..]);
    }
  }

  /** Every `Done` channel is closed at most once in any session that starts
      from `New`. */
  lemma DoneClosedAtMostOnce(now: int, acts: seq<Action>)
    ensures forall i :: 0 <= i < |acts| ==> Run(New(), now, acts).replies[i] != Fired(ClosePanic)
  {
    NewIsEmpty("", 0, now);
    RunPreservesValid(New(), now, acts);
  }

  /** A closed `Done` channel stays closed: waiters that saw it closed are
      never contradicted by a later state. */
  lemma {:induction false} ClosedOnlyGrows(r: Registry, now: int, acts: seq<Action>)
    ensures r.closed <= Run(r, now, acts).reg.closed
    decreases |acts|
  {
    if acts != [] {
      match acts[0]
      case Sleep(d) =>
        ClosedOnlyGrows(r, now + d, acts[1..]);
      case Do(op) =>
        ClosedOnlyGrows(Step(r, op, now).reg, now, acts[1..]);
    }
  }

  /** The session that fires `name` once with each payload in turn, without
      time passing. */
  function Fires(name: string, payloads: seq<Payload>): seq<Action>
  {
    seq(|payloads|, i requires 0 <= i < |payloads| => Do(FireOp(name, payloads[i])))
  }

  /** Firing a persistent entry N times succeeds N times, invokes its callback
      exactly N times with the payloads in order, and leaves the registry as it was. */
  lemma {:induction false} PersistentFiresN(r: Registry, name: string, f: CallbackId,
                                            payloads: seq<Payload>, now: int)
    requires name in r.events && r.events[name] == Persistent(f)
    ensures var t := Run(r, now, Fires(name, payloads));
            && t.reg == r
            && |t.calls| == |payloads|
            && (forall i :: 0 <= i < |payloads| ==> t.calls[i] == Invocation(f, name, payloads[i]))
            && (forall i :: 0 <= i < |payloads| ==> t.replies[i] == Fired(Ok))
    decreases |payloads|
  {
    if payloads != [] {
      var acts := Fires(name, payloads);
      assert acts[1..] == Fires(name, payloads[1..]);
      PersistentFiresN(r, name, f, payloads[1..], now);
    }
  }

  /** Whether action `a` registers an entry under `name`. */
  predicate Registers(a: Action, name: string)
  {
    a.Do? && (a.op.OnOp? || a.op.OnceOp?) && a.op.name == name
  }

  /** A name with no entry stays without one until it is registered again, and
      every `Fire` of it meanwhile reports not-found: after an expired or
      successful one-shot fire, the name is gone for good. */
  lemma {:induction false} AbsentStaysAbsent(r: Registry, now: int, acts: seq<Action>, name: string)
    requires name !in r.events
    requires forall i :: 0 <= i < |acts| ==> !Registers(acts[i], name)
    ensures name !in Run(r, now, acts).reg.events
    ensures forall i :: 0 <= i < |acts| && acts[i] == Do(HasOp(name)) ==>
              Run(r, now, acts).replies[i] == Bool(false)
    ensures forall i, p :: 0 <= i < |acts| && acts[i] == Do(FireOp(name, p)) ==>
              Run(r, now, acts).replies[i] == Fired(NotFound)
    decreases |acts|
  {
    if acts != [] {
      var t := Run(r, now, acts);
      var rest := acts[1..];
      assert forall i :: 0 <= i < |rest| ==> rest[i] == acts[i + 1];
      match acts[0]
      case Sleep(d) =>
        AbsentStaysAbsent(r, now + d, rest, name);
        assert forall i :: 1 <= i < |acts| ==> t.replies[i] == Run(r, now + d, rest).replies[i - 1];
      case Do(op) =>
        var s := Step(r, op, now);
        assert name !in s.reg.events;
        AbsentStaysAbsent(s.reg, now, rest, name);
        assert forall i :: 1 <= i < |acts| ==> t.replies[i] == Run(s.reg, now, rest).replies[i - 1];
    }
  }
}

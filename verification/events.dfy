/** The single-step engine of tiny-vmi/events.c: events waiting for a number of single steps on a vCPU,
    the internal single-step handlers that count the steps, and the clearing of handlers that is put
    off while a callback runs. Callbacks may call back into the engine in any way. */
module Events {
  import opened Sequences

  const MAX_SINGLESTEP_VCPUS := 32

  /** vmi_event_t. An event made by vmi_step_event is internal: its callback is step_and_reg_events. */
  class Event {
    const internal: bool
    const singleStep: bool    // of type VMI_EVENT_SINGLESTEP
    const vcpus: set<nat>     // the bits set in ss_event.vcpus

    constructor (singleStep: bool, vcpus: set<nat>)
      ensures !internal && this.singleStep == singleStep && this.vcpus == vcpus
    {
      this.internal, this.singleStep, this.vcpus := false, singleStep, vcpus;
    }

    constructor Internal(vcpu: nat)
      ensures internal && singleStep && vcpus == {vcpu}
    {
      internal, singleStep, vcpus := true, true, {vcpu};
    }
  }

  /** step_and_reg_event_wrapper_t. `due` is the number of the pass over `vcpu` on which it is to fire. */
  class Wrapper {
    const event: Event
    const vcpu: nat
    const hasCallback: bool
    var steps: nat
    ghost const due: nat

    constructor (event: Event, vcpu: nat, steps: nat, hasCallback: bool, ghost due: nat)
      ensures this.event == event && this.vcpu == vcpu && this.steps == steps
      ensures this.hasCallback == hasCallback && this.due == due
    {
      this.event, this.vcpu, this.steps, this.hasCallback, this.due := event, vcpu, steps, hasCallback, due;
    }
  }

  /** A firing: which wrapper, and on which pass over its vCPU. */
  datatype Firing = Firing(wrapper: Wrapper, pass: nat)

  /** Where the engine is: how many passes each vCPU has had; what has fired; and, inside a pass over
      `vcpu`, the wrappers not reached yet, the one whose callback is running and those that remain. */
  datatype Progress = Progress(passes: seq<nat>, fired: seq<Firing>,
                               vcpu: nat, unseen: seq<Wrapper>, firing: set<Wrapper>, remain: seq<Wrapper>)

  ghost function Fired(log: seq<Firing>): set<Wrapper> { set f | f in log :: f.wrapper }

  ghost function OnVcpu(ws: set<Wrapper>, vcpu: nat): set<Wrapper> { set w | w in ws && w.vcpu == vcpu }

  /** Every wrapper not yet fired, counting those in the list being processed. */
  ghost function Pending(p: Progress, stepEvents: seq<Wrapper>): set<Wrapper> {
    Elements(p.unseen) + p.firing + Elements(p.remain) + Elements(stepEvents)
  }

  /** A wrapper is in one place only, and has not fired. */
  ghost predicate Apart(p: Progress, stepEvents: seq<Wrapper>) {
    && Distinct(p.unseen) && Distinct(p.remain) && Distinct(stepEvents)
    && Elements(p.unseen) !! p.firing !! Elements(p.remain) !! Elements(stepEvents) !! Fired(p.fired)
  }

  /** Nothing fires twice, and whatever fired did so on the pass it was due. */
  ghost predicate OnTime(fired: seq<Firing>, passes: seq<nat>) {
    && (forall i, j :: 0 <= i < j < |fired| ==> fired[i].wrapper != fired[j].wrapper)
    && (forall i :: 0 <= i < |fired| ==> FiredOnTime(fired[i], passes))
  }

  ghost predicate FiredOnTime(f: Firing, passes: seq<nat>) {
    f.wrapper.vcpu < |passes| && 1 <= f.pass == f.wrapper.due <= passes[f.wrapper.vcpu]
  }

  lemma OneMoreFiring(fired: seq<Firing>, passes: seq<nat>, w: Wrapper)
    requires OnTime(fired, passes) && w !in Fired(fired) && w.vcpu < |passes| && 1 <= w.due == passes[w.vcpu]
    ensures OnTime(fired + [Firing(w, w.due)], passes) && Fired(fired + [Firing(w, w.due)]) == Fired(fired) + {w}
  {
  }

  /** `w` still has as many steps to go as there are passes until it is due. */
  ghost predicate Counting(p: Progress, w: Wrapper)
    reads w
  {
    && w.steps >= 1 && w.due >= 1 && w.vcpu < |p.passes|
    && w.due + (if w in p.unseen && w.vcpu == p.vcpu then 1 else 0) == p.passes[w.vcpu] + w.steps
  }

  /** step_vcpus counts the pending wrappers of each vCPU. */
  ghost predicate Counted(counts: seq<nat>, pending: set<Wrapper>) {
    && |counts| == MAX_SINGLESTEP_VCPUS
    && (forall w :: w in pending ==> w.vcpu < |counts| && !w.event.internal)
    && forall v :: 0 <= v < |counts| ==> counts[v] == |OnVcpu(pending, v)|
  }

  lemma CountOneMore(counts: seq<nat>, pending: set<Wrapper>, w: Wrapper)
    requires Counted(counts, pending) && w !in pending && w.vcpu < |counts| && !w.event.internal
    ensures Counted(counts[w.vcpu := counts[w.vcpu] + 1], pending + {w})
  {
    forall v | 0 <= v < |counts|
      ensures |OnVcpu(pending + {w}, v)| == if v == w.vcpu then counts[v] + 1 else counts[v]
    {
      OneOnVcpu(pending, w, v);
    }
  }

  lemma CountOneLess(counts: seq<nat>, pending: set<Wrapper>, w: Wrapper)
    requires Counted(counts, pending) && w in pending
    ensures counts[w.vcpu] > 0
    ensures Counted(counts[w.vcpu := counts[w.vcpu] - 1], pending - {w})
  {
    assert pending - {w} + {w} == pending;
    OneOnVcpu(pending - {w}, w, w.vcpu);
    forall v | 0 <= v < |counts|
      ensures |OnVcpu(pending - {w}, v)| == if v == w.vcpu then counts[v] - 1 else counts[v]
    {
      OneOnVcpu(pending - {w}, w, v);
    }
  }

  lemma OneOnVcpu(ws: set<Wrapper>, w: Wrapper, v: nat)
    requires w !in ws
    ensures |OnVcpu(ws + {w}, v)| == |OnVcpu(ws, v)| + if v == w.vcpu then 1 else 0
  {
    assert OnVcpu(ws + {w}, v) == if v == w.vcpu then OnVcpu(ws, v) + {w} else OnVcpu(ws, v);
  }

  lemma FromUser(counts: seq<nat>, pending: set<Wrapper>, w: Wrapper)
    requires Counted(counts, pending) && w in pending
    ensures w.vcpu < |counts| && !w.event.internal
  {
  }

  /** An internal handler is in place and is not about to be cleared. */
  ghost predicate Stepped(handlers: map<nat, Event>, clearing: map<Event, bool>, v: nat) {
    v in handlers && handlers[v].internal && handlers[v] !in clearing
  }

  /** Who owns the single-step handler of each vCPU. */
  ghost predicate Owned(numVcpus: nat, handlers: map<nat, Event>, counts: seq<nat>, clearing: map<Event, bool>) {
    && numVcpus <= |counts|
    && (forall v :: v in handlers ==> v < numVcpus && v in handlers[v].vcpus && handlers[v].singleStep)
    && (forall v :: v in handlers && handlers[v].internal ==> handlers[v].vcpus == {v})
    && (forall v :: 0 <= v < numVcpus ==> (counts[v] > 0 <==> Stepped(handlers, clearing, v)))
    && forall e, v :: e in clearing && e.singleStep && v in e.vcpus && v < numVcpus ==>
         v in handlers && handlers[v] == e
  }

  // A handler for a vCPU without one, and its first wrapper. (There is no handler for vCPU `numVcpus`.)
  lemma OwnedWithNew(numVcpus: nat, handlers: map<nat, Event>, counts: seq<nat>, clearing: map<Event, bool>,
                     v: nat, e: Event)
    requires Owned(numVcpus, handlers, counts, clearing) && v !in handlers && v < |counts| && v <= numVcpus
    requires e.internal && e.singleStep && e.vcpus == {v} && e !in clearing
    ensures Owned(numVcpus, if v < numVcpus then handlers[v := e] else handlers, counts[v := counts[v] + 1], clearing)
  {
  }

  // A user's event noted for clearing, or cleared at once, while it is registered.
  lemma OwnedUserClear(numVcpus: nat, handlers: map<nat, Event>, counts: seq<nat>, clearing: map<Event, bool>,
                       e: Event, hasFree: bool)
    requires Owned(numVcpus, handlers, counts, clearing) && !e.internal
    requires e.singleStep ==> forall v | v in e.vcpus :: v < numVcpus ==> v in handlers && handlers[v] == e
    ensures Owned(numVcpus, handlers, counts, clearing[e := hasFree])
    ensures clearing == map[] && e.singleStep ==>
      Owned(numVcpus, handlers - (set v | v in e.vcpus && v < numVcpus), counts, clearing)
  {
  }

  // A handler's vCPU has wrappers waiting exactly when the handler is internal and stays.
  lemma OwnedCount(numVcpus: nat, handlers: map<nat, Event>, counts: seq<nat>, clearing: map<Event, bool>, v: nat)
    requires Owned(numVcpus, handlers, counts, clearing)
    ensures numVcpus <= |counts|
    ensures v in handlers ==> v < numVcpus && (counts[v] > 0 <==> Stepped(handlers, clearing, v))
  {
  }

  // One more wrapper for a vCPU that already has some.
  lemma OwnedWithMore(numVcpus: nat, handlers: map<nat, Event>, counts: seq<nat>, clearing: map<Event, bool>, v: nat)
    requires Owned(numVcpus, handlers, counts, clearing) && v in handlers && counts[v] > 0
    ensures v < numVcpus && Stepped(handlers, clearing, v)
    ensures Owned(numVcpus, handlers, counts[v := counts[v] + 1], clearing)
  {
  }

  // One wrapper less; with the last one the handler is to be cleared.
  lemma OwnedWithLess(numVcpus: nat, handlers: map<nat, Event>, counts: seq<nat>, clearing: map<Event, bool>, v: nat)
    requires Owned(numVcpus, handlers, counts, clearing) && v < numVcpus && counts[v] > 0
    ensures v in handlers && handlers[v] !in clearing
    ensures Owned(numVcpus, handlers, counts[v := counts[v] - 1],
                  if counts[v] == 1 then clearing[handlers[v] := true] else clearing)
  {
  }

  lemma OwnedInRange(numVcpus: nat, handlers: map<nat, Event>, counts: seq<nat>, clearing: map<Event, bool>, v: nat)
    requires Owned(numVcpus, handlers, counts, clearing) && v in handlers
    ensures v < numVcpus <= |counts|
  {
  }

  /** The handlers that are not among the events of `gone`. */
  ghost function HandlersWithout(handlers: map<nat, Event>, gone: set<Event>): map<nat, Event> {
    map v | v in handlers && handlers[v] !in gone :: handlers[v]
  }

  // Clearing `e` for good.
  lemma OwnedCleared(numVcpus: nat, handlers: map<nat, Event>, counts: seq<nat>, clearing: map<Event, bool>, e: Event)
    requires Owned(numVcpus, handlers, counts, clearing) && e in clearing
    ensures var left := if e.singleStep then handlers - (set v | v in e.vcpus && v < numVcpus) else handlers;
      && left == HandlersWithout(handlers, {e})
      && Owned(numVcpus, left, counts, clearing - {e})
  {
  }

  /** What becomes of a request to step: queued, refused, or beyond the array of counters. */
  datatype Outcome = Queued | Refused | OutOfRange

  datatype Call =
    | Step(event: Event, vcpu: nat, steps: nat, hasCallback: bool, driverOk: bool)
    | Register(event: Event, driverOk: bool)
    | Clear(event: Event, hasFree: bool)

  class Engine {
    const numVcpus: nat
    var ssEvents: map<nat, Event>
    var stepEvents: seq<Wrapper>
    const stepVcpus: array<nat>
    var eventCallback: bool
    var shuttingDown: bool
    var clearEvents: map<Event, bool>   // the value tells whether there is a free routine
    ghost var progress: Progress
    ghost var issued: set<Wrapper>      // every wrapper there has been
    ghost var handed: seq<Event>        // events put in the tables of other types, oldest first

    /** The wrappers are counted, and count down, as they should. */
    ghost predicate Waiting()
      reads this`progress, this`stepEvents, this`issued, stepVcpus, Pending(progress, stepEvents)
    {
      && stepVcpus.Length == MAX_SINGLESTEP_VCPUS == |progress.passes|
      && (forall v :: numVcpus <= v < |progress.passes| ==> progress.passes[v] == 0)
      && issued == Pending(progress, stepEvents) + Fired(progress.fired)
      && Apart(progress, stepEvents) && OnTime(progress.fired, progress.passes)
      && Counted(stepVcpus[..], Pending(progress, stepEvents))
      && forall w :: w in Pending(progress, stepEvents) && w !in progress.firing ==> Counting(progress, w)
    }

    ghost predicate Valid()
      reads this, stepVcpus, Pending(progress, stepEvents)
    {
      Waiting() && Owned(numVcpus, ssEvents, stepVcpus[..], clearEvents)
    }

    /** Outside any pass. */
    ghost predicate Idle()
      reads this`progress
    {
      progress.unseen == [] && progress.firing == {} && progress.remain == []
    }

    /** Every wrapper queued is new or was queued before. */
    twostate predicate OnlyNew()
      reads this
    {
      forall i :: 0 <= i < |stepEvents| ==> fresh(stepEvents[i]) || stepEvents[i] in old(stepEvents)
    }

    constructor (numVcpus: nat)
      requires numVcpus <= MAX_SINGLESTEP_VCPUS
      ensures Valid() && Idle() && this.numVcpus == numVcpus && fresh(stepVcpus)
      ensures ssEvents == map[] && stepEvents == [] && clearEvents == map[] && !eventCallback
      ensures !shuttingDown
      ensures forall v :: 0 <= v < MAX_SINGLESTEP_VCPUS ==> stepVcpus[v] == 0
    {
      this.numVcpus := numVcpus;
      ssEvents, stepEvents, clearEvents, eventCallback, shuttingDown := map[], [], map[], false, false;
      stepVcpus := new nat[MAX_SINGLESTEP_VCPUS](_ => 0);
      progress := Progress(seq(MAX_SINGLESTEP_VCPUS, _ => 0), [], 0, [], {}, []);
      issued, handed := {}, [];
    }

    /** register_singlestep_event: all the vCPUs of the event or none. `driverOk` is the driver's answer. */
    method RegisterSinglestepEvent(event: Event, driverOk: bool) returns (ok: bool)
      modifies this`ssEvents
      ensures ok <==> driverOk && Slots(event) !! old(ssEvents).Keys
      ensures ssEvents == if ok then old(ssEvents) + (map v | v in Slots(event) :: event) else old(ssEvents)
    {
      for vcpu := 0 to numVcpus
        invariant forall v :: v in event.vcpus && v < vcpu ==> v !in ssEvents
      {
        if vcpu in event.vcpus {
          if vcpu in ssEvents { return false; }
        }
      }
      if !driverOk { return false; }
      for vcpu := 0 to numVcpus
        invariant ssEvents == old(ssEvents) + (map v | v in event.vcpus && v < vcpu :: event)
      {
        if vcpu in event.vcpus {
          ssEvents := ssEvents[vcpu := event];
        }
      }
      ok := true;
    }

    /** The vCPUs of the event that exist. */
    ghost function Slots(event: Event): set<nat> { set v | v in event.vcpus && v < numVcpus }

    /** clear_singlestep_event, the driver obeying. While the library shuts down the table is left alone. */
    method ClearSinglestepEvent(event: Event) returns (ok: bool)
      modifies this`ssEvents
      ensures ok <==> exists v :: v in event.vcpus && v < numVcpus
      ensures ssEvents == if shuttingDown then old(ssEvents) else old(ssEvents) - Slots(event)
    {
      ok := false;
      for vcpu := 0 to numVcpus
        invariant ok <==> exists v :: v in event.vcpus && v < vcpu
        invariant ssEvents ==
          if shuttingDown then old(ssEvents) else old(ssEvents) - (set v | v in event.vcpus && v < vcpu)
      {
        if vcpu in event.vcpus {
          ok := true;
          if !shuttingDown {
            ssEvents := ssEvents - {vcpu};
          }
        }
      }
      if ssEvents == map[] {
        ssEvents := map[];
      }
    }

    /** vmi_clear_event. Inside a callback the request is only noted. (A request without a free routine
        looks to the lookup like no request, and is noted again.) */
    method ClearEvent(event: Event, hasFree: bool) returns (ok: bool)
      modifies this`ssEvents, this`clearEvents
      ensures eventCallback ==> ssEvents == old(ssEvents)
      ensures eventCallback ==> ok == !(event in old(clearEvents) && old(clearEvents)[event])
      ensures eventCallback ==> clearEvents == if ok then old(clearEvents)[event := hasFree] else old(clearEvents)
      ensures !eventCallback && event.singleStep ==> (ok <==> exists v :: v in event.vcpus && v < numVcpus)
      ensures !eventCallback ==> clearEvents == old(clearEvents)
      ensures !eventCallback ==>
        ssEvents == if event.singleStep && !shuttingDown then old(ssEvents) - Slots(event) else old(ssEvents)
    {
      if eventCallback {
        if !(event in clearEvents && clearEvents[event]) {
          clearEvents := clearEvents[event := hasFree];
          return true;
        }
        return false;
      }
      if event.singleStep {
        ok := ClearSinglestepEvent(event);
      } else {
        ok := *;
      }
    }

    /** vmi_register_event. Events of other types use other tables; `driverOk` is then the answer of the
        tests made there. */
    method RegisterEvent(event: Event, driverOk: bool) returns (ok: bool)
      requires Valid() && !event.internal
      modifies this`ssEvents, this`handed
      ensures Valid() && forall v :: v in old(ssEvents) ==> v in ssEvents && ssEvents[v] == old(ssEvents)[v]
      ensures event.singleStep ==> (ok <==> driverOk && Slots(event) !! old(ssEvents).Keys)
      ensures ssEvents ==
        if event.singleStep && ok then old(ssEvents) + (map v | v in Slots(event) :: event) else old(ssEvents)
      ensures !event.singleStep ==> ok == driverOk
      ensures handed == old(handed) + if !event.singleStep && ok then [event] else []
    {
      if event.singleStep {
        ok := RegisterSinglestepEvent(event, driverOk);
      } else {
        ok := driverOk;
        if ok { handed := handed + [event]; }
      }
    }

    /** vmi_step_event. The vCPU test lets `numVcpus` itself pass: the request is then accepted, but no
        handler will ever count its steps. Where there is a handler, the request is accepted exactly when
        that is internal and is not waiting to be cleared. */
    method StepEvent(event: Event, vcpuId: nat, steps: nat, hasCallback: bool, driverOk: bool)
      returns (outcome: Outcome)
      requires Valid() && !event.internal
      modifies this`ssEvents, this`stepEvents, this`issued, stepVcpus
      ensures Valid() && old(issued) <= issued
      ensures outcome != Refused <==>
        && vcpuId <= numVcpus && steps > 0
        && if vcpuId in old(ssEvents) then Stepped(old(ssEvents), clearEvents, vcpuId) else driverOk
      ensures outcome == OutOfRange <==>
        vcpuId == numVcpus == MAX_SINGLESTEP_VCPUS && steps > 0 && driverOk
      ensures vcpuId in old(ssEvents) ==>
        (old(stepVcpus[..])[vcpuId] > 0 <==> Stepped(old(ssEvents), clearEvents, vcpuId))
      ensures outcome != Queued ==>
        ssEvents == old(ssEvents) && stepEvents == old(stepEvents) && stepVcpus[..] == old(stepVcpus[..])
      ensures outcome == Queued ==> vcpuId < MAX_SINGLESTEP_VCPUS
      ensures outcome == Queued ==> stepVcpus[..] == old(stepVcpus[..])[vcpuId := old(stepVcpus[..])[vcpuId] + 1]
      ensures outcome == Queued ==> |stepEvents| > 0 && stepEvents[1..] == old(stepEvents) && fresh(stepEvents[0])
      ensures outcome == Queued ==> var w := stepEvents[0];
        && w.event == event && w.vcpu == vcpuId && w.steps == steps && w.hasCallback == hasCallback
        && w.due == progress.passes[vcpuId] + steps
      ensures outcome == Queued && vcpuId < numVcpus ==> Stepped(ssEvents, clearEvents, vcpuId)
      ensures ssEvents.Keys == old(ssEvents.Keys) + if outcome == Queued && vcpuId < numVcpus then {vcpuId} else {}
      ensures forall v :: v in old(ssEvents) ==> ssEvents[v] == old(ssEvents)[v]
    {
      OwnedCount(numVcpus, ssEvents, stepVcpus[..], clearEvents, vcpuId);
      hide Owned, Apart, OnTime, Counted, Counting;
      var needNewSs := true;
      if vcpuId > numVcpus { return Refused; }
      if vcpuId in ssEvents {
        if stepVcpus[vcpuId] == 0 { return Refused; }
        OwnedWithMore(numVcpus, ssEvents, stepVcpus[..], clearEvents, vcpuId);
        needNewSs := false;
      }
      if steps == 0 { return Refused; }
      if needNewSs {
        var registered := InstallHandler(vcpuId, driverOk);
        if !registered { return Refused; }
      }
      if vcpuId >= stepVcpus.Length { return OutOfRange; }
      Enqueue(event, vcpuId, steps, hasCallback);
      outcome := Queued;
    }

    // Set up a single-step event for a vCPU without one; its first wrapper is still to come.
    method InstallHandler(vcpuId: nat, driverOk: bool) returns (ok: bool)
      requires Valid() && vcpuId !in ssEvents && vcpuId <= numVcpus
      modifies this`ssEvents
      ensures Waiting() && ok == driverOk && (!ok || vcpuId == numVcpus ==> ssEvents == old(ssEvents))
      ensures ok && vcpuId < MAX_SINGLESTEP_VCPUS ==>
        && Owned(numVcpus, ssEvents, stepVcpus[..][vcpuId := stepVcpus[vcpuId] + 1], clearEvents)
        && ssEvents.Keys == old(ssEvents.Keys) + (if vcpuId < numVcpus then {vcpuId} else {})
        && (vcpuId < numVcpus ==> Stepped(ssEvents, clearEvents, vcpuId))
        && forall v :: v in old(ssEvents) ==> ssEvents[v] == old(ssEvents)[v]
    {
      hide Owned, Apart, OnTime, Counted, Counting;
      var singleEvent := new Event.Internal(vcpuId);
      if vcpuId < MAX_SINGLESTEP_VCPUS {
        OwnedWithNew(numVcpus, ssEvents, stepVcpus[..], clearEvents, vcpuId, singleEvent);
      }
      ok := RegisterSinglestepEvent(singleEvent, driverOk);
      assert ok ==> ssEvents == if vcpuId < numVcpus then old(ssEvents)[vcpuId := singleEvent] else old(ssEvents);
    }

    // Save the event into the queue.
    method Enqueue(event: Event, vcpuId: nat, steps: nat, hasCallback: bool)
      requires Waiting() && vcpuId < MAX_SINGLESTEP_VCPUS && steps > 0 && !event.internal
      modifies this`stepEvents, this`issued, stepVcpus
      ensures Waiting() && old(issued) <= issued
      ensures stepVcpus[..] == old(stepVcpus[..])[vcpuId := old(stepVcpus[..])[vcpuId] + 1]
      ensures |stepEvents| > 0 && stepEvents[1..] == old(stepEvents) && fresh(stepEvents[0])
      ensures var w := stepEvents[0];
        && w.event == event && w.vcpu == vcpuId && w.steps == steps && w.hasCallback == hasCallback
        && w.due == progress.passes[vcpuId] + steps
    {
      var wrap := new Wrapper(event, vcpuId, steps, hasCallback, progress.passes[vcpuId] + steps);
      CountOneMore(stepVcpus[..], Pending(progress, stepEvents), wrap);
      ghost var before := Pending(progress, stepEvents);
      FirstAdded(wrap, stepEvents);
      stepEvents, issued := [wrap] + stepEvents, issued + {wrap};
      assert Pending(progress, stepEvents) == before + {wrap};
      stepVcpus[vcpuId] := stepVcpus[vcpuId] + 1;
    }

    /** A user may clear a single-step event only while it is registered on all its vCPUs. */
    predicate Registered(event: Event)
      reads this`ssEvents
    {
      forall v | v in event.vcpus :: v < numVcpus ==> v in ssEvents && ssEvents[v] == event
    }

    /** The request is accepted, and there is a counter for its vCPU. */
    ghost predicate Queues(call: Call)
      requires call.Step?
      reads this`ssEvents, this`clearEvents
    {
      && call.vcpu <= numVcpus && call.vcpu < 32 && call.steps > 0
      && if call.vcpu in ssEvents then Stepped(ssEvents, clearEvents, call.vcpu) else call.driverOk
    }

    /** The wrapper is as the request asks. */
    ghost predicate Asks(call: Call, w: Wrapper)
      requires call.Step?
      reads this`progress, w
    {
      && w.event == call.event && w.vcpu == call.vcpu && w.steps == call.steps && w.hasCallback == call.hasCallback
      && w.vcpu < |progress.passes| && w.due == progress.passes[w.vcpu] + w.steps
    }

    /** One call that user code makes; a call that users may not make is passed over. */
    method Perform(call: Call)
      requires Valid() && (eventCallback || clearEvents == map[])
      modifies this`ssEvents, this`stepEvents, this`clearEvents, this`issued, this`handed, stepVcpus
      ensures Valid() && Grown(old(stepEvents), stepEvents) && old(issued) <= issued
      ensures forall i :: 0 <= i < |stepEvents| - |old(stepEvents)| ==> fresh(stepEvents[i])
      ensures eventCallback ==> OnlyMore(old(ssEvents), old(clearEvents), ssEvents, clearEvents)
      ensures !eventCallback ==> clearEvents == old(clearEvents)
      ensures old(handed) <= handed
      ensures call.Register? && !call.event.internal ==>
        && Reregistered(call.event, call.driverOk, numVcpus, old(ssEvents), old(handed), ssEvents, handed)
        && stepEvents == old(stepEvents)
      ensures call.Clear? && !call.event.internal && InPlace(old(ssEvents), call.event, numVcpus) && eventCallback ==>
        call.event in clearEvents && ssEvents == old(ssEvents)
      ensures call.Clear? && !call.event.internal && InPlace(old(ssEvents), call.event, numVcpus) && !eventCallback ==>
        ssEvents == if shuttingDown || !call.event.singleStep then old(ssEvents) else old(ssEvents) - Slots(call.event)
      ensures call.Step? && !call.event.internal ==>
        if old(Queues(call)) then
          |stepEvents| > 0 && stepEvents[1..] == old(stepEvents) && Asks(call, stepEvents[0])
        else stepEvents == old(stepEvents) && ssEvents == old(ssEvents)
    {
      hide Owned, Apart, OnTime, Counted, Counting, Pending, Grown, Stepped;
      GrownByOne(stepEvents, stepEvents);
      if call.event.internal { return; }
      match call {
        case Step(event, vcpu, steps, hasCallback, driverOk) =>
          UserStep(call);
        case Register(event, driverOk) =>
          var _ := RegisterEvent(event, driverOk);
        case Clear(event, hasFree) =>
          if !event.singleStep || Registered(event) { UserClear(event, hasFree); }
      }
    }

    method UserStep(call: Call)
      requires Valid() && call.Step? && !call.event.internal
      modifies this`ssEvents, this`stepEvents, this`issued, stepVcpus
      ensures Valid() && Grown(old(stepEvents), stepEvents) && old(issued) <= issued
      ensures forall i :: 0 <= i < |stepEvents| - |old(stepEvents)| ==> fresh(stepEvents[i])
      ensures OnlyMore(old(ssEvents), clearEvents, ssEvents, clearEvents)
      ensures if old(Queues(call)) then
          |stepEvents| > 0 && stepEvents[1..] == old(stepEvents) && Asks(call, stepEvents[0])
        else stepEvents == old(stepEvents) && ssEvents == old(ssEvents)
    {
      hide Owned, Apart, OnTime, Counted, Counting, Pending, Grown, Stepped;
      var _ := StepEvent(call.event, call.vcpu, call.steps, call.hasCallback, call.driverOk);
      GrownByOne(old(stepEvents), stepEvents);
    }

    method UserClear(event: Event, hasFree: bool)
      requires Valid() && (eventCallback || clearEvents == map[])
      requires !event.internal && (event.singleStep ==> Registered(event))
      modifies this`ssEvents, this`clearEvents
      ensures Valid()
      ensures eventCallback ==> OnlyMore(old(ssEvents), old(clearEvents), ssEvents, clearEvents) && event in clearEvents
      ensures !eventCallback ==> clearEvents == old(clearEvents)
      ensures ssEvents ==
        if eventCallback || shuttingDown || !event.singleStep then old(ssEvents) else old(ssEvents) - Slots(event)
    {
      hide Owned, Apart, OnTime, Counted, Counting;
      OwnedUserClear(numVcpus, ssEvents, stepVcpus[..], clearEvents, event, hasFree);
      var _ := ClearEvent(event, hasFree);
    }

    /** User code: any number of calls, on any events, new ones among them. */
    method UserCode()
      requires Valid() && (eventCallback || clearEvents == map[])
      modifies this`ssEvents, this`stepEvents, this`clearEvents, this`issued, this`handed, stepVcpus
      ensures Valid() && Grown(old(stepEvents), stepEvents) && old(issued) <= issued
      ensures forall i :: 0 <= i < |stepEvents| - |old(stepEvents)| ==> fresh(stepEvents[i])
      ensures eventCallback ==> OnlyMore(old(ssEvents), old(clearEvents), ssEvents, clearEvents)
      ensures !eventCallback ==> clearEvents == old(clearEvents)
      ensures old(handed) <= handed
    {
      var calls: nat :| true;
      for i := 0 to calls
        invariant Valid() && old(issued) <= issued && Grown(old(stepEvents), stepEvents)
        invariant forall i :: 0 <= i < |stepEvents| - |old(stepEvents)| ==> fresh(stepEvents[i])
        invariant eventCallback ==> OnlyMore(old(ssEvents), old(clearEvents), ssEvents, clearEvents)
        invariant !eventCallback ==> clearEvents == old(clearEvents)
        invariant old(handed) <= handed
      {
        var singleStep: bool, vcpus: set<nat> :| true;
        var newEvent := new Event(singleStep, vcpus);
        assert Register(newEvent, true).Register?;
        var call: Call :| call.Step? || call.Register? || call.Clear?;
        Perform(call);
      }
    }

    /** The handler whose pass it is: `e`, internal and counting on the vCPU of the pass. */
    ghost predicate PassOf(e: Event)
      reads this`ssEvents, this`eventCallback, this`progress
    {
      eventCallback && progress.vcpu in ssEvents && ssEvents[progress.vcpu] == e && e.internal
    }

    // What happens when `wrap`, the next wrapper of the list, has no steps left.
    method Fire(e: Event, wrap: Wrapper, driverOk: bool)
      requires Valid() && PassOf(e) && progress.firing == {wrap} && wrap.vcpu == progress.vcpu
      requires wrap.vcpu < numVcpus <= MAX_SINGLESTEP_VCPUS && !wrap.event.internal
      requires 1 <= wrap.due == progress.passes[wrap.vcpu]
      modifies this`ssEvents, this`stepEvents, this`clearEvents, this`issued, this`handed, this`progress, stepVcpus
      ensures Valid() && PassOf(e) && old(issued) <= issued
      ensures progress == old(progress).(firing := {}, fired := old(progress.fired) + [Firing(wrap, wrap.due)])
      ensures Grown(old(stepEvents), stepEvents) && (!wrap.hasCallback ==> stepEvents == old(stepEvents))
      ensures forall i :: 0 <= i < |stepEvents| - |old(stepEvents)| ==> fresh(stepEvents[i])
      ensures !wrap.hasCallback ==>
        Reregistered(wrap.event, driverOk, numVcpus, old(ssEvents), old(handed), ssEvents, handed)
    {
      hide Owned, Apart, OnTime, Counted, Counting, Reregistered;
      Call(wrap, driverOk);
      assert wrap in Pending(progress, stepEvents);
      ghost var counts := stepVcpus[..];
      Retire(wrap);
      OwnedWithLess(numVcpus, ssEvents, counts, clearEvents, wrap.vcpu);
      if stepVcpus[wrap.vcpu] == 0 {
        var _ := ClearEvent(e, true);
      }
    }

    /** The callback of `wrap`, or for want of one the registering of its event: a single-step event comes
        to stand on exactly its existing vCPUs, if the driver agrees and none of them has a handler; an
        event of another type goes to its own table, if that takes it. */
    method Call(wrap: Wrapper, driverOk: bool)
      requires Valid() && eventCallback && !wrap.event.internal
      modifies this`ssEvents, this`stepEvents, this`clearEvents, this`issued, this`handed, stepVcpus
      ensures Valid() && Grown(old(stepEvents), stepEvents) && old(issued) <= issued
      ensures forall i :: 0 <= i < |stepEvents| - |old(stepEvents)| ==> fresh(stepEvents[i])
      ensures OnlyMore(old(ssEvents), old(clearEvents), ssEvents, clearEvents)
      ensures !wrap.hasCallback ==> stepEvents == old(stepEvents) && clearEvents == old(clearEvents)
      ensures !wrap.hasCallback ==>
        Reregistered(wrap.event, driverOk, numVcpus, old(ssEvents), old(handed), ssEvents, handed)
    {
      hide Owned, Apart, OnTime, Counted, Counting;
      if wrap.hasCallback {
        UserCode();
      } else {
        var _ := RegisterEvent(wrap.event, driverOk);
      }
    }

    // Count `wrap` no more.
    method Retire(wrap: Wrapper)
      requires Waiting() && progress.firing == {wrap} && wrap.vcpu < MAX_SINGLESTEP_VCPUS
      requires 1 <= wrap.due == progress.passes[wrap.vcpu]
      modifies this`progress, stepVcpus
      ensures Waiting() && old(stepVcpus[..])[wrap.vcpu] > 0
      ensures stepVcpus[..] == old(stepVcpus[..])[wrap.vcpu := old(stepVcpus[..])[wrap.vcpu] - 1]
      ensures progress == old(progress).(firing := {}, fired := old(progress.fired) + [Firing(wrap, wrap.due)])
    {
      hide Counted, OnTime, Fired;
      ghost var before := Pending(progress, stepEvents);
      CountOneLess(stepVcpus[..], before, wrap);
      stepVcpus[wrap.vcpu] := stepVcpus[wrap.vcpu] - 1;
      ghost var log := progress.fired + [Firing(wrap, wrap.due)];
      OneMoreFiring(progress.fired, progress.passes, wrap);
      progress := progress.(firing := {}, fired := log);
      assert Pending(progress, stepEvents) == before - {wrap};
    }

    // One step of the walk through the copied list.
    method Visit(e: Event, vcpuId: nat, wrap: Wrapper, remain: seq<Wrapper>, driverOk: bool)
      returns (left: seq<Wrapper>)
      requires Valid() && PassOf(e) && progress.firing == {} && progress.remain == remain
      requires progress.unseen != [] && progress.unseen[0] == wrap && progress.vcpu == vcpuId
      modifies this`ssEvents, this`stepEvents, this`clearEvents, this`issued, this`handed
      modifies this`progress, stepVcpus, wrap
      ensures Valid() && PassOf(e) && Grown(old(stepEvents), stepEvents) && old(issued) <= issued
      ensures !wrap.hasCallback ==> stepEvents == old(stepEvents)
      ensures forall i :: 0 <= i < |stepEvents| - |old(stepEvents)| ==> fresh(stepEvents[i])
      ensures progress == old(progress).(unseen := old(progress.unseen)[1..], remain := left, fired := progress.fired)
      ensures !DueOn(wrap, vcpuId, progress.passes) ==>
        progress.fired == old(progress.fired) && ssEvents == old(ssEvents) && handed == old(handed)
      ensures DueOn(wrap, vcpuId, progress.passes) ==> progress.fired == old(progress.fired) + [Firing(wrap, wrap.due)]
      ensures DueOn(wrap, vcpuId, progress.passes) && !wrap.hasCallback ==>
        Reregistered(wrap.event, driverOk, numVcpus, old(ssEvents), old(handed), ssEvents, handed)
      ensures progress.fired + Firings(progress.unseen, vcpuId, progress.passes)
        == old(progress.fired) + Firings(old(progress.unseen), vcpuId, progress.passes)
      ensures Reverse(Staying(progress.unseen, vcpuId, progress.passes)) + left
        == Reverse(Staying(old(progress.unseen), vcpuId, progress.passes)) + remain
    {
      hide Owned, Apart, OnTime, Counted, Firings, Staying, Reverse, Pending, Reregistered;
      WalkStep(progress.unseen, remain, vcpuId, progress.passes);
      OwnedInRange(numVcpus, ssEvents, stepVcpus[..], clearEvents, vcpuId);
      Reach(wrap, vcpuId);
      if wrap.steps == 0 {
        Fire(e, wrap, driverOk);
        left := remain;
      } else {
        left := [wrap] + remain;
        Keep(wrap);
      }
    }

    // Count one step of `wrap`, if the pass is over its vCPU.
    method Reach(wrap: Wrapper, vcpuId: nat)
      requires Valid() && progress.vcpu == vcpuId && progress.firing == {}
      requires progress.unseen != [] && progress.unseen[0] == wrap
      modifies this`progress, wrap
      ensures Valid() && progress == old(progress).(unseen := old(progress.unseen)[1..], firing := {wrap})
      ensures wrap.steps == 0 <==> DueOn(wrap, progress.vcpu, progress.passes)
      ensures wrap.steps == 0 || Counting(progress, wrap)
      ensures wrap.vcpu < MAX_SINGLESTEP_VCPUS && !wrap.event.internal && wrap.due >= 1
    {
      hide Owned, Counted, OnTime;
      assert wrap in Pending(progress, stepEvents);
      FromUser(stepVcpus[..], Pending(progress, stepEvents), wrap);
      if wrap.vcpu == vcpuId {
        wrap.steps := wrap.steps - 1;
      }
      ghost var unseen := progress.unseen;
      FirstRemoved(unseen);
      progress := progress.(unseen := unseen[1..], firing := {wrap});
      assert Pending(progress, stepEvents) == old(Pending(progress, stepEvents));
    }

    ghost method Keep(wrap: Wrapper)
      requires Valid() && progress.firing == {wrap} && Counting(progress, wrap)
      modifies this`progress
      ensures Valid() && progress == old(progress).(firing := {}, remain := [wrap] + old(progress.remain))
    {
      hide Owned, Counted, OnTime;
      FirstAdded(wrap, progress.remain);
      progress := progress.(firing := {}, remain := [wrap] + progress.remain);
      assert Pending(progress, stepEvents) == old(Pending(progress, stepEvents));
    }

    /** What the engine promises about each wrapper there has ever been, between passes: it fires exactly
        once, on the pass it is due (StepEvent makes that the steps-th pass after the request), unless its
        vCPU does not exist; until then its count says how many passes are left. */
    lemma FiresWhenDue(w: Wrapper)
      requires Valid() && Idle() && w in issued
      ensures w.vcpu < MAX_SINGLESTEP_VCPUS
      ensures w in Fired(progress.fired) <==> progress.passes[w.vcpu] >= w.due
      ensures w in Fired(progress.fired) <==> w !in stepEvents
      ensures w in Fired(progress.fired) ==> Firing(w, w.due) in progress.fired
      ensures forall i, j :: 0 <= i < j < |progress.fired| ==> progress.fired[i].wrapper != progress.fired[j].wrapper
      ensures w in stepEvents ==> w.steps >= 1 && w.steps == w.due - progress.passes[w.vcpu]
      ensures w.vcpu >= numVcpus ==> w in stepEvents
    {
      if w in Fired(progress.fired) {
        var i :| 0 <= i < |progress.fired| && progress.fired[i].wrapper == w;
        assert FiredOnTime(progress.fired[i], progress.passes);
      } else {
        assert w in Pending(progress, stepEvents);
      }
    }

    /** step_and_reg_events: one pass over `vcpuId`. What was due fires, oldest first; the rest stays, in
        its order, before what callbacks have added. The driver will agree to register the events of the
        wrappers in `agreeing`; without callbacks, the events registered are exactly those of the wrappers
        that fire, as far as the driver agrees and vCPUs are free. */
    method StepAndRegEvents(e: Event, vcpuId: nat, agreeing: set<Wrapper>)
      requires Valid() && Idle() && eventCallback
      requires vcpuId in ssEvents && ssEvents[vcpuId] == e && e.internal
      modifies this`ssEvents, this`stepEvents, this`clearEvents, this`issued, this`handed
      modifies this`progress, stepVcpus, stepEvents
      ensures Valid() && Idle() && eventCallback && old(issued) <= issued
      ensures progress.passes == old(progress.passes)[vcpuId := old(progress.passes)[vcpuId] + 1]
      ensures progress.fired == old(progress.fired) + Firings(Reverse(old(stepEvents)), vcpuId, progress.passes)
      ensures var staying := Staying(old(stepEvents), vcpuId, progress.passes);
        && staying <= stepEvents && (forall i :: |staying| <= i < |stepEvents| ==> fresh(stepEvents[i]))
        && (NoCallbacks(old(stepEvents)) ==> stepEvents == staying)
      ensures vcpuId in ssEvents && ssEvents[vcpuId] == e
      ensures NoCallbacks(old(stepEvents)) ==>
        var log := Firings(Reverse(old(stepEvents)), vcpuId, progress.passes);
        && ssEvents == HandlersAfter(old(ssEvents), log, agreeing, numVcpus)
        && handed == old(handed) + OthersOf(log, agreeing)
    {
      hide Owned, Apart, OnTime, Counted, Counting, Firings, Staying, Reverse, Pending, DueOn,
        Reregistered, HandlersAfter, OthersOf;
      OwnedInRange(numVcpus, ssEvents, stepVcpus[..], clearEvents, vcpuId);
      var regList := BeginPass(vcpuId);
      var remain: seq<Wrapper> := [];
      ghost var start := progress;
      ghost var log: seq<Firing> := [];
      NothingLogged(ssEvents, agreeing, numVcpus);
      while regList != []
        invariant Valid() && old(issued) <= issued && PassOf(e) && progress.firing == {}
        invariant progress == start.(unseen := regList, remain := remain, fired := progress.fired)
        invariant progress.fired + Firings(regList, vcpuId, start.passes)
          == start.fired + Firings(start.unseen, vcpuId, start.passes)
        invariant Reverse(Staying(regList, vcpuId, start.passes)) + remain
          == Reverse(Staying(start.unseen, vcpuId, start.passes))
        invariant forall i :: 0 <= i < |stepEvents| ==> fresh(stepEvents[i])
        invariant forall i :: 0 <= i < |regList| ==> regList[i] in old(stepEvents)
        invariant NoCallbacks(old(stepEvents)) ==> stepEvents == []
        invariant progress.fired == start.fired + log
        invariant NoCallbacks(old(stepEvents)) ==> ssEvents == HandlersAfter(old(ssEvents), log, agreeing, numVcpus)
        invariant NoCallbacks(old(stepEvents)) ==> handed == old(handed) + OthersOf(log, agreeing)
        decreases |regList|
      {
        ghost var wrap, handlers, before := regList[0], ssEvents, handed;
        remain := Visit(e, vcpuId, regList[0], remain, regList[0] in agreeing);
        if DueOn(wrap, vcpuId, progress.passes) {
          OneMoreLogged(old(ssEvents), log, agreeing, numVcpus, wrap);
          log := log + [Firing(wrap, wrap.due)];
        }
        regList := regList[1..];
      }
      WalkOver(vcpuId, start.passes);
      StayingReversed(old(stepEvents), vcpuId, start.passes);
      SameTail(start.fired, log, Firings(start.unseen, vcpuId, start.passes));
      EndPass(remain);
    }

    // Copy the list, which reverses it, and empty it.
    method BeginPass(vcpuId: nat) returns (regList: seq<Wrapper>)
      requires Valid() && Idle() && vcpuId < numVcpus
      modifies this`stepEvents, this`progress
      ensures Valid() && stepEvents == [] && regList == Reverse(old(stepEvents))
      ensures forall i :: 0 <= i < |regList| ==> regList[i] in old(stepEvents)
      ensures progress == old(progress).(passes := old(progress.passes)[vcpuId := old(progress.passes)[vcpuId] + 1],
        vcpu := vcpuId, unseen := regList)
    {
      regList := [];
      for i := 0 to |stepEvents|
        invariant stepEvents == old(stepEvents) && progress == old(progress) && regList == Reverse(stepEvents[..i])
      {
        assert stepEvents[..i + 1] == stepEvents[..i] + [stepEvents[i]];
        ReverseAppend(stepEvents[..i], stepEvents[i]);
        regList := [stepEvents[i]] + regList;
      }
      assert stepEvents[..|stepEvents|] == stepEvents;
      ReverseKeepsElements(stepEvents);
      forall i | 0 <= i < |regList| ensures regList[i] in stepEvents { assert regList[i] in Elements(regList); }
      stepEvents := [];
      ghost var passes := progress.passes[vcpuId := progress.passes[vcpuId] + 1];
      progress := progress.(passes := passes, vcpu := vcpuId, unseen := regList);
      assert Pending(progress, stepEvents) == old(Pending(progress, stepEvents));
    }

    // Concatenate what remains with whatever the callbacks have set.
    method EndPass(remain: seq<Wrapper>)
      requires Valid() && progress.unseen == [] && progress.firing == {} && progress.remain == remain
      modifies this`stepEvents, this`progress
      ensures Valid() && Idle() && progress == old(progress).(remain := [])
      ensures stepEvents == remain + old(stepEvents)
    {
      assert Elements(remain + stepEvents) == Elements(remain) + Elements(stepEvents);
      DistinctSum(remain, stepEvents);
      stepEvents := if stepEvents != [] then remain + stepEvents else remain;
      progress := progress.(remain := []);
      assert Pending(progress, stepEvents) == old(Pending(progress, stepEvents));
    }

    /** process_single_step_event (tiny-vmi/driver/xen/xen_events_46.c) for a request from `vcpuId`. */
    method ProcessSingleStepEvent(vcpuId: nat, agreeing: set<Wrapper>) returns (ok: bool)
      requires Valid() && Idle() && !eventCallback
      modifies this`ssEvents, this`stepEvents, this`clearEvents, this`issued, this`handed
      modifies this`progress, this`eventCallback
      modifies stepVcpus, stepEvents
      ensures Valid() && Idle() && !eventCallback && old(issued) <= issued
      ensures OnlyNew()
      ensures ok == (vcpuId in old(ssEvents))
      ensures ok && old(ssEvents)[vcpuId].internal ==>
        var passes := old(progress.passes)[vcpuId := old(progress.passes)[vcpuId] + 1];
        && progress.passes == passes
        && progress.fired == old(progress.fired) + Firings(Reverse(old(stepEvents)), vcpuId, passes)
        && Staying(old(stepEvents), vcpuId, passes) <= stepEvents
      ensures !(ok && old(ssEvents)[vcpuId].internal) ==> progress == old(progress)
      ensures ok && old(ssEvents)[vcpuId].internal && NoCallbacks(old(stepEvents)) ==>
        var log := Firings(Reverse(old(stepEvents)), vcpuId, progress.passes);
        && ssEvents == HandlersAfter(old(ssEvents), log, agreeing, numVcpus)
        && handed == old(handed) + OthersOf(log, agreeing)
    {
      hide Owned, Apart, OnTime, Counted, Counting, Pending, Firings, Staying, Reverse;
      if vcpuId !in ssEvents { return false; }
      var event := ssEvents[vcpuId];
      eventCallback := true;
      if event.internal {
        StepAndRegEvents(event, vcpuId, agreeing);
        StayingIsPart(old(stepEvents), vcpuId, progress.passes);
      } else {
        UserCode();
        OldOnes(old(stepEvents), stepEvents);
      }
      eventCallback := false;
      ok := true;
    }

    /** The processing of a request of another kind: at most one callback, which is user code. */
    method ProcessOtherEvent()
      requires Valid() && Idle() && !eventCallback
      modifies this`ssEvents, this`stepEvents, this`clearEvents, this`issued, this`handed, this`eventCallback, stepVcpus
      ensures Valid() && Idle() && !eventCallback && old(issued) <= issued
      ensures OnlyNew()
    {
      eventCallback := true;
      UserCode();
      OldOnes(old(stepEvents), stepEvents);
      eventCallback := false;
    }

    /** Clearing what callbacks have asked to be cleared, as xen_events_listen_46 does once the ring is
        empty: afterwards each vCPU has an internal handler exactly when wrappers are waiting on it. */
    method ApplyClears()
      requires Valid() && !eventCallback && (shuttingDown ==> clearEvents == map[])
      modifies this`ssEvents, this`clearEvents
      ensures Valid() && clearEvents == map[]
      ensures forall v :: v in ssEvents <==> v in old(ssEvents) && old(ssEvents)[v] !in old(clearEvents)
      ensures forall v :: v in ssEvents ==> ssEvents[v] == old(ssEvents)[v]
      ensures ssEvents == HandlersWithout(old(ssEvents), old(clearEvents).Keys)
      ensures forall v :: 0 <= v < numVcpus ==> (stepVcpus[v] > 0 <==> v in ssEvents && ssEvents[v].internal)
    {
      hide Owned, Apart, OnTime, Counted, Counting, HandlersWithout;
      WithoutNone(ssEvents);
      assert old(clearEvents).Keys - clearEvents.Keys == {};
      while clearEvents != map[]
        invariant Valid() && clearEvents.Keys <= old(clearEvents.Keys)
        invariant ssEvents == HandlersWithout(old(ssEvents), old(clearEvents).Keys - clearEvents.Keys)
        decreases |clearEvents|
      {
        ghost var gone := old(clearEvents).Keys - clearEvents.Keys;
        var event :| event in clearEvents;
        WithoutMore(old(ssEvents), gone, event);
        ApplyClear(event);
        assert old(clearEvents).Keys - clearEvents.Keys == gone + {event};
      }
      assert old(clearEvents).Keys - clearEvents.Keys == old(clearEvents).Keys;
      WithoutIs(old(ssEvents), old(clearEvents).Keys);
      OwnedExactly(numVcpus, ssEvents, stepVcpus[..], clearEvents);
    }

    // clear_events_full, and the removal of the request.
    method ApplyClear(event: Event)
      requires Valid() && !eventCallback && !shuttingDown && event in clearEvents
      modifies this`ssEvents, this`clearEvents
      ensures Valid() && clearEvents == old(clearEvents) - {event}
      ensures ssEvents == HandlersWithout(old(ssEvents), {event})
    {
      hide Owned, Apart, OnTime, Counted, Counting, HandlersWithout;
      OwnedCleared(numVcpus, ssEvents, stepVcpus[..], clearEvents, event);
      var _ := ClearEvent(event, clearEvents[event]);
      clearEvents := clearEvents - {event};
    }
  }

  /** The vCPU that does not exist: on a machine with one vCPU, a request for vCPU 1 is accepted and
      counted, but nothing owns that vCPU's single-stepping. */
  method RequestForMissingVcpu() returns (engine: Engine)
    ensures fresh(engine) && engine.Valid() && engine.clearEvents == map[] && engine.numVcpus == 1
    ensures engine.stepVcpus[1] == 1 && 1 !in engine.ssEvents
  {
    hide Owned, Apart, OnTime, Counted, Counting;
    engine := new Engine(1);
    var event := new Event(false, {});
    var outcome := engine.StepEvent(event, 1, 1, true, true);
    assert outcome == Queued && engine.stepVcpus[..][1] == 1;
  }

  /** The index of the counter that an accepted request increments: the code's test keeps it within the
      array exactly unless all 32 vCPUs exist and the request is for the one beyond them. */
  lemma CounterIndex(numVcpus: nat, vcpuId: nat)
    requires numVcpus <= MAX_SINGLESTEP_VCPUS && vcpuId <= numVcpus
    ensures vcpuId < MAX_SINGLESTEP_VCPUS <==> !(numVcpus == MAX_SINGLESTEP_VCPUS && vcpuId == numVcpus)
  {
  }

  /** The vCPU beyond the array of counters: the code's test lets the request pass. */
  method RequestBeyondCounters() returns (engine: Engine, outcome: Outcome)
    ensures fresh(engine) && engine.Valid() && engine.numVcpus == MAX_SINGLESTEP_VCPUS == 32
    ensures outcome == OutOfRange
  {
    hide Owned, Apart, OnTime, Counted, Counting;
    engine := new Engine(MAX_SINGLESTEP_VCPUS);
    var event := new Event(false, {});
    outcome := engine.StepEvent(event, MAX_SINGLESTEP_VCPUS, 1, true, true);
  }

  /** In the callback of a pass that has just fired the last wrapper, the internal handler is still in
      place but waits to be cleared, and a further request for its vCPU is refused. */
  method RequestWhileClearing() returns (engine: Engine, outcome: Outcome)
    ensures fresh(engine) && engine.Valid() && engine.eventCallback && engine.numVcpus == 1
    ensures 0 in engine.ssEvents && engine.ssEvents[0].internal && engine.ssEvents[0] in engine.clearEvents
    ensures outcome == Refused
  {
    var event := new Event(false, {});
    engine := OnePassOver(event);
    outcome := engine.StepEvent(event, 0, 1, true, true);
  }

  // One request, with no callback, and the pass that fires it.
  method OnePassOver(event: Event) returns (engine: Engine)
    requires !event.internal
    ensures fresh(engine) && fresh(engine.stepVcpus) && engine.Valid() && engine.eventCallback && engine.numVcpus == 1
    ensures 0 in engine.ssEvents && engine.ssEvents[0].internal && engine.ssEvents[0] in engine.clearEvents
  {
    hide Owned, Apart, OnTime, Counted, Counting, Pending;
    engine := new Engine(1);
    var _ := engine.StepEvent(event, 0, 1, false, true);
    assert engine.stepEvents == [engine.stepEvents[0]];
    engine.eventCallback := true;
    LastPass(engine, engine.ssEvents[0]);
  }

  // The pass over vCPU 0 that fires the last wrapper of all.
  method LastPass(engine: Engine, e: Event)
    requires engine.Valid() && engine.Idle() && engine.eventCallback
    requires 0 in engine.ssEvents && engine.ssEvents[0] == e && e.internal
    requires |engine.stepEvents| == 1 && !engine.stepEvents[0].hasCallback
    requires engine.stepEvents[0].vcpu == 0 && engine.stepEvents[0].due == engine.progress.passes[0] + 1
    modifies engine, engine.stepVcpus, engine.stepEvents
    ensures engine.Valid() && engine.Idle() && engine.eventCallback && engine.stepEvents == []
    ensures 0 in engine.ssEvents && engine.ssEvents[0] == e && e in engine.clearEvents
  {
    hide Owned, Apart, OnTime, Counted, Counting, Pending, Firings, Reverse;
    engine.StepAndRegEvents(e, 0, {});
    AllDue(old(engine.stepEvents), 0, engine.progress.passes);
    NothingPending(engine);
    OwnedCount(engine.numVcpus, engine.ssEvents, engine.stepVcpus[..], engine.clearEvents, 0);
  }

  lemma AllDue(ws: seq<Wrapper>, vcpu: nat, passes: seq<nat>)
    requires |ws| == 1 && DueOn(ws[0], vcpu, passes)
    ensures Staying(ws, vcpu, passes) == []
  {
  }

  lemma NothingPending(engine: Engine)
    requires engine.Valid() && engine.Idle() && engine.stepEvents == []
    ensures forall v :: 0 <= v < MAX_SINGLESTEP_VCPUS ==> engine.stepVcpus[v] == 0
  {
    assert Pending(engine.progress, engine.stepEvents) == {};
    forall v | 0 <= v < MAX_SINGLESTEP_VCPUS ensures engine.stepVcpus[v] == 0 {
      assert engine.stepVcpus[..][v] == |OnVcpu({}, v)|;
      assert OnVcpu({}, v) == {};
    }
  }

  lemma WithoutNone(handlers: map<nat, Event>)
    ensures HandlersWithout(handlers, {}) == handlers
  {
  }

  lemma OwnedExactly(numVcpus: nat, handlers: map<nat, Event>, counts: seq<nat>, clearing: map<Event, bool>)
    requires Owned(numVcpus, handlers, counts, clearing) && clearing == map[]
    ensures numVcpus <= |counts|
    ensures forall v :: 0 <= v < numVcpus ==> (counts[v] > 0 <==> v in handlers && handlers[v].internal)
  {
  }

  lemma WithoutIs(handlers: map<nat, Event>, gone: set<Event>)
    ensures forall v :: v in HandlersWithout(handlers, gone) <==> v in handlers && handlers[v] !in gone
    ensures forall v :: v in HandlersWithout(handlers, gone) ==> HandlersWithout(handlers, gone)[v] == handlers[v]
  {
  }

  lemma WithoutMore(handlers: map<nat, Event>, gone: set<Event>, e: Event)
    ensures HandlersWithout(HandlersWithout(handlers, gone), {e}) == HandlersWithout(handlers, gone + {e})
  {
  }

  lemma WalkOver(vcpu: nat, passes: seq<nat>)
    ensures Firings([], vcpu, passes) == [] && Reverse(Staying([], vcpu, passes)) == []
  {
  }

  /** What fires on the pass, in the order of the list. */
  ghost function Firings(ws: seq<Wrapper>, vcpu: nat, passes: seq<nat>): seq<Firing> {
    if ws == [] then []
    else (if DueOn(ws[0], vcpu, passes) then [Firing(ws[0], ws[0].due)] else []) + Firings(ws[1..], vcpu, passes)
  }

  /** What does not. */
  ghost function Staying(ws: seq<Wrapper>, vcpu: nat, passes: seq<nat>): seq<Wrapper> {
    if ws == [] then []
    else (if DueOn(ws[0], vcpu, passes) then [] else [ws[0]]) + Staying(ws[1..], vcpu, passes)
  }

  lemma {:induction false} StayingAppend(ws: seq<Wrapper>, w: Wrapper, vcpu: nat, passes: seq<nat>)
    ensures Staying(ws + [w], vcpu, passes) == Staying(ws, vcpu, passes) + if DueOn(w, vcpu, passes) then [] else [w]
  {
    if ws == [] {
    } else {
      StayingAppend(ws[1..], w, vcpu, passes);
      assert (ws + [w])[1..] == ws[1..] + [w];
    }
  }

  // Reversing twice, on the way out and on the way back, keeps the order.
  lemma {:induction false} StayingReversed(ws: seq<Wrapper>, vcpu: nat, passes: seq<nat>)
    ensures Reverse(Staying(Reverse(ws), vcpu, passes)) == Staying(ws, vcpu, passes)
  {
    if ws == [] {
    } else {
      var w, rest := ws[0], ws[1..];
      var r := Staying(Reverse(rest), vcpu, passes);
      StayingReversed(rest, vcpu, passes);
      StayingAppend(Reverse(rest), w, vcpu, passes);
      ReverseAppend(r, w);
      assert Reverse(ws) == Reverse(rest) + [w];
      assert r + [] == r;
      hide Reverse;
      assert Staying(ws, vcpu, passes) == if DueOn(w, vcpu, passes) then Reverse(r) else [w] + Reverse(r);
    }
  }

  lemma {:induction false} StayingIsPart(ws: seq<Wrapper>, vcpu: nat, passes: seq<nat>)
    ensures forall w :: w in Staying(ws, vcpu, passes) ==> w in ws
  {
    if ws == [] {
    } else {
      StayingIsPart(ws[1..], vcpu, passes);
    }
  }

  lemma GrownByOne<T>(before: seq<T>, after: seq<T>)
    ensures after == before || (|after| > 0 && after[1..] == before) ==> Grown(before, after)
  {
  }

  lemma OldOnes<T>(before: seq<T>, after: seq<T>)
    requires Grown(before, after)
    ensures forall i :: |after| - |before| <= i < |after| ==> after[i] in before
  {
    forall i | |after| - |before| <= i < |after| ensures after[i] in before {
      assert after[i] == after[|after| - |before|..][i - (|after| - |before|)];
    }
  }

  // One step of the walk, seen from what is still to come.
  lemma WalkStep(ws: seq<Wrapper>, remain: seq<Wrapper>, vcpu: nat, passes: seq<nat>)
    requires ws != []
    ensures var due := DueOn(ws[0], vcpu, passes);
      && Firings(ws, vcpu, passes) == (if due then [Firing(ws[0], ws[0].due)] else []) + Firings(ws[1..], vcpu, passes)
      && Reverse(Staying(ws, vcpu, passes)) + remain
         == Reverse(Staying(ws[1..], vcpu, passes)) + if due then remain else [ws[0]] + remain
  {
    hide Reverse;
    var w, rest := ws[0], Staying(ws[1..], vcpu, passes);
    ReverseCons(w, rest);
    assert (Reverse(rest) + [w]) + remain == Reverse(rest) + ([w] + remain);
    assert Staying(ws, vcpu, passes) == if DueOn(w, vcpu, passes) then rest else [w] + rest;
  }

  /** What comes of registering `event`, `agreed` being the answer of the driver: the handlers and the events
      put in other tables, before and after. */
  ghost predicate Reregistered(event: Event, agreed: bool, numVcpus: nat, handlers: map<nat, Event>, handed: seq<Event>,
                               handlers': map<nat, Event>, handed': seq<Event>) {
    var slots := set v | v in event.vcpus && v < numVcpus;
    && (handlers' == if event.singleStep && agreed && slots !! handlers.Keys
        then handlers + (map v | v in slots :: event) else handlers)
    && (handed' == handed + if !event.singleStep && agreed then [event] else [])
  }

  /** The handlers once the events of the wrappers in `log` have been registered, one after the other. */
  ghost function HandlersAfter(handlers: map<nat, Event>, log: seq<Firing>, agreeing: set<Wrapper>, numVcpus: nat)
    : map<nat, Event>
  {
    if log == [] then handlers
    else
      var before := HandlersAfter(handlers, log[..|log| - 1], agreeing, numVcpus);
      var w := log[|log| - 1].wrapper;
      var slots := set v | v in w.event.vcpus && v < numVcpus;
      if w.event.singleStep && w in agreeing && slots !! before.Keys
      then before + (map v | v in slots :: w.event) else before
  }

  /** The events of other types among them that are taken. */
  ghost function OthersOf(log: seq<Firing>, agreeing: set<Wrapper>): seq<Event> {
    if log == [] then []
    else
      var w := log[|log| - 1].wrapper;
      OthersOf(log[..|log| - 1], agreeing) + if !w.event.singleStep && w in agreeing then [w.event] else []
  }

  lemma SameTail<T>(s: seq<T>, a: seq<T>, b: seq<T>)
    requires s + a == s + b
    ensures a == b
  {
    assert a == (s + a)[|s|..];
    assert b == (s + b)[|s|..];
  }

  lemma NothingLogged(handlers: map<nat, Event>, agreeing: set<Wrapper>, numVcpus: nat)
    ensures HandlersAfter(handlers, [], agreeing, numVcpus) == handlers && OthersOf([], agreeing) == []
  {
  }

  lemma OneMoreLogged(handlers: map<nat, Event>, log: seq<Firing>, agreeing: set<Wrapper>, numVcpus: nat, w: Wrapper)
    ensures forall handed: seq<Event>, handlers', handed' ::
      Reregistered(w.event, w in agreeing, numVcpus, HandlersAfter(handlers, log, agreeing, numVcpus),
                   handed + OthersOf(log, agreeing), handlers', handed') ==>
      && handlers' == HandlersAfter(handlers, log + [Firing(w, w.due)], agreeing, numVcpus)
      && handed' == handed + OthersOf(log + [Firing(w, w.due)], agreeing)
  {
  }

  /** Seen from the outside: handlers stay; whatever is new stands on a vCPU of its own and was fired with
      the driver's agreement; and whatever was so fired is in place on all its vCPUs, unless one of them
      had a handler before or has another now. */
  lemma {:induction false} HandlersOfPass(handlers: map<nat, Event>, log: seq<Firing>, agreeing: set<Wrapper>,
                                          numVcpus: nat)
    ensures var after := HandlersAfter(handlers, log, agreeing, numVcpus);
      && (forall v :: v in handlers ==> v in after && after[v] == handlers[v])
      && (forall v :: v in after && v !in handlers ==> v < numVcpus && v in after[v].vcpus && after[v].singleStep)
      && (forall v :: v in after && v !in handlers ==>
            exists f :: f in log && f.wrapper in agreeing && f.wrapper.event == after[v])
      && (forall f :: f in log && f.wrapper in agreeing && f.wrapper.event.singleStep ==>
            InPlace(after, f.wrapper.event, numVcpus) || Occupied(handlers, after, f.wrapper.event, numVcpus))
  {
    if log == [] {
    } else {
      HandlersOfPass(handlers, log[..|log| - 1], agreeing, numVcpus);
    }
  }

  /** `event` stands on each of its vCPUs that exist. */
  ghost predicate InPlace(handlers: map<nat, Event>, event: Event, numVcpus: nat) {
    forall v :: v in event.vcpus && v < numVcpus ==> v in handlers && handlers[v] == event
  }

  /** One of the vCPUs of `event` had a handler before, or has another than `event` now. */
  ghost predicate Occupied(before: map<nat, Event>, after: map<nat, Event>, event: Event, numVcpus: nat) {
    exists v :: v in event.vcpus && v < numVcpus && v in after && (v in before || after[v] != event)
  }

  ghost predicate NoCallbacks(ws: seq<Wrapper>) { forall w :: w in ws ==> !w.hasCallback }

  /** `w` is to fire on the pass over `vcpu` that has begun. */
  ghost predicate DueOn(w: Wrapper, vcpu: nat, passes: seq<nat>) {
    w.vcpu == vcpu < |passes| && w.due == passes[vcpu]
  }

  /** `after` is `before` with something put in front. */
  ghost predicate Grown<T>(before: seq<T>, after: seq<T>) {
    |after| >= |before| && after[|after| - |before|..] == before
  }

  /** Handlers stay where they are, and no internal one is newly about to be cleared. */
  ghost predicate OnlyMore(handlers: map<nat, Event>, clearing: map<Event, bool>,
                           handlers': map<nat, Event>, clearing': map<Event, bool>) {
    && (forall v :: v in handlers ==> v in handlers' && handlers'[v] == handlers[v])
    && clearing.Keys <= clearing'.Keys
    && forall e :: e in clearing' && e.internal ==> e in clearing
  }
}

/** The listening loop of tiny-vmi/driver/xen/xen_events_46.c: it drains the ring, hands each request to
    the event engine, answers it, and applies the clears that callbacks have asked for once the ring is
    empty. The hypervisor runs at the same time. */
module Listeners {
  import opened Events
  import opened Rings

  class Listener {
    const engine: Engine
    const ring: Ring
    var paused: bool              // all vCPUs are paused, so nothing puts requests on the ring
    var toCome: seq<Request>      // what the hypervisor has still to put on the ring

    ghost predicate Valid()
      reads this, engine, engine.stepVcpus, Pending(engine.progress, engine.stepEvents), ring, ring.slots
    {
      && engine.Valid() && engine.Idle() && !engine.eventCallback && ring.Valid()
      && Answered(ring.responses, Accepted(ring.produced[..ring.consumed]))
      && (engine.shuttingDown ==> engine.clearEvents == map[])
    }

    constructor (numVcpus: nat, ringSize: u32, ghost turns: nat)
      requires numVcpus <= MAX_SINGLESTEP_VCPUS && Divides(ringSize, turns)
      ensures Valid() && fresh(engine) && fresh(engine.stepVcpus) && fresh(ring) && fresh(ring.slots)
      ensures engine.numVcpus == numVcpus && engine.clearEvents == map[] && engine.stepEvents == [] && !paused
      ensures ring.produced == [] && ring.consumed == 0 && ring.delivered == 0 && ring.size == ringSize
      ensures toCome == [] && !engine.shuttingDown
    {
      engine := new Engine(numVcpus);
      ring := new Ring(ringSize, turns);
      paused, toCome := false, [];
    }

    /** What the hypervisor does in the meantime, the listener standing still. */
    method HypervisorRuns()
      requires ring.Valid()
      modifies this`toCome, ring`reqProd, ring`produced, ring`rspCons, ring`delivered, ring.slots
      ensures ring.Valid() && old(ring.produced) <= ring.produced
      ensures ring.produced[..ring.consumed] == old(ring.produced[..ring.consumed])
      ensures ring.produced + toCome == old(ring.produced + toCome)
      ensures paused ==> ring.produced == old(ring.produced)
    {
      hide Divides, Wrapped, SlotOf;
      var moves: nat :| true;
      for i := 0 to moves
        invariant ring.Valid() && old(ring.produced) <= ring.produced
        invariant ring.produced + toCome == old(ring.produced + toCome)
        invariant paused ==> ring.produced == old(ring.produced)
      {
        var hasResponse, hasRoom := ring.HypervisorSees();
        var takes: bool := *;
        if takes && hasResponse {
          var _ := ring.TakeResponse();
        } else if !paused && toCome != [] && hasRoom {
          ring.PushRequest(toCome[0]);
          toCome := toCome[1..];
        }
      }
    }

    /** The dispatch on a request's reason; `vrc` is the status so far. */
    method Dispatch(req: Request, vrc: bool) returns (status: bool)
      requires engine.Valid() && engine.Idle() && !engine.eventCallback
      modifies engine, engine.stepVcpus, engine.stepEvents
      ensures engine.Valid() && engine.Idle() && !engine.eventCallback
      ensures engine.OnlyNew() && engine.shuttingDown == old(engine.shuttingDown)
      ensures engine.shuttingDown ==> engine.clearEvents == old(engine.clearEvents)
      ensures |engine.progress.passes| == |old(engine.progress.passes)|
      ensures forall v :: 0 <= v < |engine.progress.passes| ==>
        engine.progress.passes[v] == old(engine.progress.passes[v]) + if old(Counts(req, v)) then 1 else 0
      ensures engine.shuttingDown || req.reason == WriteCtrlReg(false) ==> status == vrc
      ensures !engine.shuttingDown && req.reason == SingleStep ==> status == (req.vcpuId in old(engine.ssEvents))
      ensures !engine.shuttingDown && req.reason.Unknown? ==> !status
    {
      status := vrc;
      if !engine.shuttingDown {
        match req.reason {
          case SingleStep =>
            var agreeing: set<Wrapper> := *;
            status := engine.ProcessSingleStepEvent(req.vcpuId, agreeing);
          case Unknown(_) =>
            status := false;
          case WriteCtrlReg(false) =>
          case _ =>
            engine.ProcessOtherEvent();
            status := *;
        }
      }
    }

    /** process_requests. Each request of the expected version is answered before the next is taken; one
        of another version is taken, not answered, and ends the drain. */
    method ProcessRequests() returns (vrc: bool)
      requires Valid()
      modifies this`toCome, ring, ring.slots, engine, engine.stepVcpus, engine.stepEvents
      ensures Valid() && old(ring.produced) <= ring.produced && old(ring.consumed) <= ring.consumed
      ensures ring.produced + toCome == old(ring.produced + toCome)
      ensures paused ==> ring.produced == old(ring.produced)
      ensures forall i :: old(ring.consumed) <= i < ring.consumed - 1 ==> ring.produced[i].version == INTERFACE_VERSION
      ensures ring.Empty() ||
        (ring.consumed > old(ring.consumed) && ring.produced[ring.consumed - 1].version != INTERFACE_VERSION)
      ensures ring.consumed > old(ring.consumed) && ring.produced[ring.consumed - 1].version != INTERFACE_VERSION
        ==> !vrc
      ensures ring.consumed == old(ring.consumed) ==> vrc
      ensures engine.OnlyNew() && engine.shuttingDown == old(engine.shuttingDown)
    {
      hide Owned, Apart, OnTime, Counted, Counting, Pending, Divides, Wrapped, SlotOf, Answered, Accepted;
      vrc := true;
      while true
        invariant Valid() && old(ring.produced) <= ring.produced && old(ring.consumed) <= ring.consumed
        invariant ring.produced + toCome == old(ring.produced + toCome)
        invariant paused ==> ring.produced == old(ring.produced)
        invariant forall i :: old(ring.consumed) <= i < ring.consumed ==> ring.produced[i].version == INTERFACE_VERSION
        invariant ring.consumed == old(ring.consumed) ==> vrc
        invariant engine.OnlyNew() && engine.shuttingDown == old(engine.shuttingDown)
        decreases |toCome| + |ring.produced| - ring.consumed
      {
        var n := Unconsumed();
        if n == 0 { break; }
        var accepted;
        accepted, vrc := ProcessRequest(vrc);
        if !accepted { return false; }
      }
    }

    // What the ring holds at the moment.
    method Unconsumed() returns (n: u32)
      requires Valid()
      modifies this`toCome, ring`reqProd, ring`produced, ring`rspCons, ring`delivered, ring.slots
      ensures Valid() && old(ring.produced) <= ring.produced && n == |ring.produced| - ring.consumed
      ensures ring.produced + toCome == old(ring.produced + toCome)
      ensures paused ==> ring.produced == old(ring.produced)
    {
      hide Owned, Apart, OnTime, Counted, Counting, Pending, Divides, Wrapped, SlotOf, Answered, Accepted;
      HypervisorRuns();
      n := ring.HasUnconsumedRequests();
    }

    /** The vCPU on which a request makes the engine count a step. */
    ghost predicate Counts(req: Request, v: nat)
      reads engine`shuttingDown, engine`ssEvents
    {
      && !engine.shuttingDown && req.reason == SingleStep && req.vcpuId == v
      && v in engine.ssEvents && engine.ssEvents[v].internal
    }

    // Take one request and, if it is of the expected version, handle it and answer it.
    method ProcessRequest(vrc: bool) returns (accepted: bool, status: bool)
      requires Valid() && !ring.Empty()
      modifies this`toCome, ring, ring.slots, engine, engine.stepVcpus, engine.stepEvents
      ensures Valid() && old(ring.produced) <= ring.produced
      ensures ring.produced + toCome == old(ring.produced + toCome)
      ensures paused ==> ring.produced == old(ring.produced)
      ensures ring.consumed == old(ring.consumed) + 1
      ensures var req := ring.produced[old(ring.consumed)];
        && accepted == (req.version == 1)
        && ring.responses == old(ring.responses) +
             (if accepted then [Response(req.version, req.vcpuId, req.vcpuPaused, req.reason)] else [])
        && |engine.progress.passes| == |old(engine.progress.passes)|
        && forall v :: 0 <= v < |engine.progress.passes| ==>
             engine.progress.passes[v] ==
               old(engine.progress.passes[v]) + if accepted && old(Counts(req, v)) then 1 else 0
      ensures engine.OnlyNew() && engine.shuttingDown == old(engine.shuttingDown)
    {
      hide Owned, Apart, OnTime, Counted, Counting, Pending, Divides, Wrapped, SlotOf, Accepted;
      var req := ring.GetRequest();
      ghost var i := ring.consumed - 1;
      ghost var before := ring.produced;
      AcceptedOneMore(before, i);
      if req.version != INTERFACE_VERSION {
        return false, vrc;
      }
      var rsp := Response(req.version, req.vcpuId, req.vcpuPaused, req.reason);
      status := Dispatch(req, vrc);
      HypervisorRuns();
      assert ring.produced[..i + 1] == before[..i + 1];
      ring.PutResponse(rsp);
      accepted := true;
    }

    /** xen_events_listen_46. Afterwards no clear is pending, and each vCPU has an internal single-step
        handler exactly when wrappers are waiting on it. The status is that of the last drain: when
        clears were pending and the ring was empty by then, a failure of the first drain is forgotten. */
    method Listen(round: Round) returns (ok: bool, ghost drains: Drains)
      requires Valid() && !paused && engine.clearEvents == map[]
      modifies this`toCome, this`paused, ring, ring.slots, engine, engine.stepVcpus, engine.stepEvents
      ensures Valid() && !paused && engine.clearEvents == map[]
      ensures old(ring.produced) <= ring.produced && old(ring.consumed) <= ring.consumed
      ensures ring.produced + toCome == old(ring.produced + toCome)
      ensures forall v :: 0 <= v < engine.numVcpus ==>
        (engine.stepVcpus[v] > 0 <==> v in engine.ssEvents && engine.ssEvents[v].internal)
      ensures ok == (round.waitOk && round.notifyOk && if drains.again then drains.second else drains.first)
      ensures drains.again && round.pauseOk ==> ClearsMeet(drains.second, drains.atPause, drains.foundEmpty)
      ensures !drains.again ==> drains.foundEmpty
      ensures forall i :: 0 <= i < |drains.atPause| ==> drains.atPause[i] in ring.produced
      ensures engine.OnlyNew() && engine.shuttingDown == old(engine.shuttingDown)
    {
      hide Owned, Apart, OnTime, Counted, Counting, Pending, Divides, Wrapped, SlotOf, Answered, Accepted, ClearsMeet;
      drains := Drains(true, false, true, [], true);
      if round.waitOk {
        ok := ProcessRequests();
        drains := drains.(first := ok);
        if engine.clearEvents != map[] {
          ghost var atPause, foundEmpty;
          ok, atPause, foundEmpty := DrainAndClear(round.pauseOk);
          drains := Drains(drains.first, true, ok, atPause, foundEmpty);
        }
        ok := ok && round.notifyOk;
      } else {
        ok := false;
      }
      OwnedExactly(engine.numVcpus, engine.ssEvents, engine.stepVcpus[..], engine.clearEvents);
    }

    /** Pause, drain what is on the ring, clear, resume. The result of pausing is ignored; `atPause` is
        what the ring held then. */
    method DrainAndClear(pauseOk: bool) returns (ok: bool, ghost atPause: seq<Request>, ghost foundEmpty: bool)
      requires Valid() && !paused
      modifies this`toCome, this`paused, ring, ring.slots, engine, engine.stepVcpus, engine.stepEvents
      ensures Valid() && !paused && engine.clearEvents == map[]
      ensures old(ring.produced) <= ring.produced && old(ring.consumed) <= ring.consumed
      ensures ring.produced + toCome == old(ring.produced + toCome)
      ensures pauseOk ==> ring.produced == old(ring.produced)
      ensures atPause == old(ring.produced[ring.consumed..])
      ensures foundEmpty == ring.Empty()
      ensures pauseOk ==> ClearsMeet(ok, atPause, foundEmpty)
      ensures engine.OnlyNew() && engine.shuttingDown == old(engine.shuttingDown)
    {
      hide Owned, Apart, OnTime, Counted, Counting, Pending, Divides, Wrapped, SlotOf, Answered, Accepted, ClearsMeet;
      ok, atPause, foundEmpty := DrainPaused(pauseOk);
      engine.ApplyClears();
      paused := false;
    }

    // Pause, and drain what is on the ring.
    method DrainPaused(pauseOk: bool) returns (ok: bool, ghost atPause: seq<Request>, ghost foundEmpty: bool)
      requires Valid() && !paused
      modifies this`toCome, this`paused, ring, ring.slots, engine, engine.stepVcpus, engine.stepEvents
      ensures Valid() && old(ring.produced) <= ring.produced && old(ring.consumed) <= ring.consumed
      ensures ring.produced + toCome == old(ring.produced + toCome)
      ensures pauseOk ==> ring.produced == old(ring.produced) && ClearsMeet(ok, atPause, foundEmpty)
      ensures atPause == old(ring.produced[ring.consumed..]) && foundEmpty == ring.Empty()
      ensures engine.OnlyNew() && engine.shuttingDown == old(engine.shuttingDown)
    {
      hide Owned, Apart, OnTime, Counted, Counting, Pending, Divides, Wrapped, SlotOf, Answered, Accepted, ClearsMeet;
      paused := pauseOk;
      ghost var start := ring.consumed;
      atPause := ring.produced[start..];
      ok := ProcessRequests();
      MeetAfterDrain(ring.produced, start, ring.consumed, ok);
      HypervisorRuns();
      foundEmpty := ring.Empty();
    }

    /** Any run: rounds of listening, each with requests arriving all the while, and any user calls
        between them. Responses answer the accepted requests one for one and in order (`Valid`), no
        request is lost, every wrapper keeps its count (Engine.FiresWhenDue), and after each round
        single-stepping is owned as it should be. If pausing works and no request of a wrong version
        ever came, every clear met an empty ring. */
    method Run(rounds: seq<Round>) returns (ghost foundEmpty: seq<bool>)
      requires Valid() && !paused && engine.clearEvents == map[]
      modifies this, ring, ring.slots, engine, engine.stepVcpus, engine.stepEvents
      ensures Valid() && !paused && engine.clearEvents == map[]
      ensures ring.produced + toCome == old(ring.produced + toCome) + Arrivals(rounds)
      ensures forall v :: 0 <= v < engine.numVcpus ==>
        (engine.stepVcpus[v] > 0 <==> v in engine.ssEvents && engine.ssEvents[v].internal)
      ensures |foundEmpty| == |rounds|
      ensures (forall i :: 0 <= i < |ring.produced| ==> ring.produced[i].version == INTERFACE_VERSION) ==>
        forall r :: 0 <= r < |rounds| && rounds[r].pauseOk ==> foundEmpty[r]
    {
      hide Owned, Apart, OnTime, Counted, Counting, Pending, Divides, Wrapped, SlotOf, Answered, Accepted, Arrivals;
      NoArrivals();
      foundEmpty := [];
      for r := 0 to |rounds|
        invariant Valid() && !paused && engine.clearEvents == map[]
        invariant ring.produced + toCome == old(ring.produced + toCome) + Arrivals(rounds[..r])
        invariant |foundEmpty| == r
        invariant AllExpected(ring.produced) ==> forall k :: 0 <= k < r && rounds[k].pauseOk ==> foundEmpty[k]
        invariant engine.OnlyNew()
      {
        MoreArrivals(rounds, r);
        ghost var before := ring.produced;
        ghost var empty := PerformRound(rounds[r]);
        assert AllExpected(ring.produced) ==> AllExpected(before);
        foundEmpty := foundEmpty + [empty];
      }
      assert rounds[..|rounds|] == rounds;
      OwnedExactly(engine.numVcpus, engine.ssEvents, engine.stepVcpus[..], engine.clearEvents);
    }

    // User calls, then listening.
    method PerformRound(round: Round) returns (ghost foundEmpty: bool)
      requires Valid() && !paused && engine.clearEvents == map[]
      modifies this`toCome, this`paused, ring, ring.slots, engine, engine.stepVcpus, engine.stepEvents
      ensures Valid() && !paused && engine.clearEvents == map[]
      ensures old(ring.produced) <= ring.produced
      ensures ring.produced + toCome == old(ring.produced + toCome) + round.arrivals
      ensures round.pauseOk && AllExpected(ring.produced) ==> foundEmpty
      ensures engine.OnlyNew() && engine.shuttingDown == (old(engine.shuttingDown) || round.shutDown)
    {
      hide Owned, Apart, OnTime, Counted, Counting, Pending, Divides, Wrapped, SlotOf, Answered, Accepted;
      if round.shutDown { engine.shuttingDown := true; }
      engine.UserCode();
      OldOnes(old(engine.stepEvents), engine.stepEvents);
      assert ring.produced + (toCome + round.arrivals) == (ring.produced + toCome) + round.arrivals;
      toCome := toCome + round.arrivals;
      ghost var drains;
      var ok;
      ok, drains := Listen(round);
      foundEmpty := drains.foundEmpty;
      AllAmong(drains.atPause, ring.produced);
    }
  }

  /** What happens in a round of listening: the requests that start to arrive, whether the library starts
      to shut down, and what the waiting, pausing and notifying calls answer. */
  datatype Round = Round(arrivals: seq<Request>, shutDown: bool, waitOk: bool, pauseOk: bool, notifyOk: bool)

  /** How a round drained the ring: the status of the first drain, whether clears made it drain again,
      the status of that, what the ring held when it paused the vCPUs, and whether the clears then found
      it empty. */
  datatype Drains = Drains(first: bool, again: bool, second: bool, atPause: seq<Request>, foundEmpty: bool)

  ghost predicate AllExpected(s: seq<Request>) {
    forall i :: 0 <= i < |s| ==> s[i].version == INTERFACE_VERSION
  }

  /** Once the vCPUs are paused, the clears find the ring empty exactly when no request of a wrong version
      had another behind it; otherwise the drain fails. A drain of an empty ring succeeds. */
  ghost predicate ClearsMeet(ok: bool, atPause: seq<Request>, foundEmpty: bool) {
    && (foundEmpty <==> forall i :: 0 <= i < |atPause| - 1 ==> atPause[i].version == INTERFACE_VERSION)
    && (!foundEmpty ==> !ok)
    && (atPause == [] ==> ok)
  }

  lemma MeetAfterDrain(produced: seq<Request>, start: nat, consumed: nat, ok: bool)
    requires start <= consumed <= |produced| && (consumed == start ==> ok)
    requires forall i :: start <= i < consumed - 1 ==> produced[i].version == INTERFACE_VERSION
    requires consumed == |produced| || (consumed > start && produced[consumed - 1].version != INTERFACE_VERSION)
    requires consumed > start && produced[consumed - 1].version != INTERFACE_VERSION ==> !ok
    ensures ClearsMeet(ok, produced[start..], consumed == |produced|)
  {
    var atPause := produced[start..];
    if consumed < |produced| { assert atPause[consumed - 1 - start] == produced[consumed - 1]; }
  }

  lemma AllAmong(part: seq<Request>, s: seq<Request>)
    requires forall i :: 0 <= i < |part| ==> part[i] in s
    ensures AllExpected(s) ==> AllExpected(part)
  {
  }

  /** A clear is pending, and a request of a wrong version is on the ring with one of the right version
      behind it: the clear is applied while that one is still to be consumed. */
  method ClearOnNonEmptyRing() returns (listener: Listener, ghost foundEmpty: bool)
    ensures fresh(listener) && listener.Valid() && listener.engine.clearEvents == map[]
    ensures !foundEmpty && !listener.ring.Empty()
  {
    hide Owned, Apart, OnTime, Counted, Counting, Pending, Wrapped, SlotOf, Answered, Accepted;
    listener := PendingClear();
    var first, second :=
      Request(INTERFACE_VERSION + 1, 0, false, GuestRequest), Request(INTERFACE_VERSION, 0, false, GuestRequest);
    listener.ring.PushRequest(first);
    listener.ring.PushRequest(second);
    assert listener.ring.produced == [first, second];
    var ok;
    ghost var atPause;
    ok, atPause, foundEmpty := listener.DrainAndClear(true);
    assert atPause[0] == first;
  }

  method PendingClear() returns (listener: Listener)
    ensures fresh(listener) && fresh(listener.engine) && fresh(listener.engine.stepVcpus)
    ensures fresh(listener.ring) && fresh(listener.ring.slots)
    ensures listener.Valid() && !listener.paused && listener.engine.clearEvents != map[]
    ensures listener.engine.stepEvents == [] && listener.ring.produced == [] && listener.ring.consumed == 0
    ensures listener.ring.delivered == 0 && listener.ring.size == 4
  {
    hide Owned, Apart, OnTime, Counted, Counting, Pending, Wrapped, SlotOf, Answered, Accepted;
    listener := new Listener(1, 4, 0x4000_0000);
    var event := new Event(false, {});
    listener.engine.eventCallback := true;
    listener.engine.UserClear(event, true);
    listener.engine.eventCallback := false;
  }

  ghost function Arrivals(rounds: seq<Round>): seq<Request> {
    if rounds == [] then [] else Arrivals(rounds[..|rounds| - 1]) + rounds[|rounds| - 1].arrivals
  }

  lemma NoArrivals()
    ensures Arrivals([]) == []
  {
  }

  lemma MoreArrivals(rounds: seq<Round>, r: nat)
    requires r < |rounds|
    ensures Arrivals(rounds[..r + 1]) == Arrivals(rounds[..r]) + rounds[r].arrivals
  {
    assert rounds[..r + 1][..r] == rounds[..r];
  }

  lemma AcceptedOneMore(produced: seq<Request>, i: nat)
    requires i < |produced|
    ensures Accepted(produced[..i + 1]) ==
      Accepted(produced[..i]) + if produced[i].version == 1 then [produced[i]] else []
  {
    assert produced[..i + 1][..i] == produced[..i];
  }
}

/** The vm_event ring of tiny-vmi/driver/xen/xen_events_46.c. Requests and responses share the slots of
    one ring; its indices are free-running 32-bit counters, as Xen's public ring header defines them. */
module Rings {
  import opened Bits

  const WRAP := 0x1_0000_0000

  type u32 = i: int | 0 <= i < WRAP

  const INTERFACE_VERSION := 1

  datatype Reason =
    | MemAccess
    | WriteCtrlReg(known: bool)   // CR0, CR3, CR4 and XCR0 are known
    | MovToMsr
    | SingleStep
    | SoftwareBreakpoint
    | GuestRequest
    | Unknown(code: nat)

  /** vm_event_46_request_t and vm_event_46_response_t, less what the reasons carry. */
  datatype Request = Request(version: nat, vcpuId: nat, vcpuPaused: bool, reason: Reason)

  datatype Response = Response(version: nat, vcpuId: nat, vcpuPaused: bool, reason: Reason)

  datatype Slot = Req(request: Request) | Rsp(response: Response)

  function Sub32(a: u32, b: u32): u32 { (a - b) % WRAP }

  function Add32(a: u32, b: u32): u32 { (a + b) % WRAP }

  /** The 32-bit index for a count. */
  ghost function Wrapped(count: nat): u32 { count % WRAP }

  /** The size is a power of two, so that it divides the range of an index. */
  ghost predicate Divides(size: nat, turns: nat) { size > 0 && size * turns == WRAP }

  /** The slot of the `i`-th request or response. */
  ghost function SlotOf(i: nat, size: nat): (slot: nat)
    requires size > 0
    ensures slot < size
  {
    i % size
  }

  lemma Differ(i: nat, j: nat, size: nat)
    requires i < j < i + size
    ensures SlotOf(i, size) != SlotOf(j, size)
  {
    var q, r, d := i / size, i % size, j - i;
    assert i == q * size + r;
    if r + d < size {
      DivModUnique(j, size, q, r + d);
    } else {
      DivModUnique(j, size, q + 1, r + d - size);
    }
  }

  // A 32-bit index selects the slot that the unbounded count selects.
  lemma SameSlot(count: nat, size: nat, turns: nat)
    requires Divides(size, turns)
    ensures Wrapped(count) % size == SlotOf(count, size)
  {
    var q, r := count / WRAP, count % WRAP;
    assert count == q * (size * turns) + r;
    Regroup(q, size, turns);
    DivModUnique(count, size, q * turns + r / size, r % size);
  }

  lemma Regroup(q: nat, size: nat, turns: nat)
    ensures q * (size * turns) == (q * turns) * size
  {
  }

  // The distance between two counts survives their wrapping around.
  lemma SubWrapped(a: nat, b: nat)
    requires b <= a < b + WRAP
    ensures Sub32(Wrapped(a), Wrapped(b)) == a - b
  {
  }

  lemma NextIndex(count: nat)
    ensures Add32(Wrapped(count), 1) == Wrapped(count + 1)
  {
  }

  lemma WrappedIs(count: nat)
    ensures Wrapped(count) == count % 0x1_0000_0000
  {
  }

  lemma SlotIs(i: nat, size: nat)
    requires size > 0
    ensures SlotOf(i, size) == i % size
  {
  }

  lemma Small(i: u32)
    ensures Wrapped(i) == i
  {
  }

  /** The requests that are answered: those of the interface version expected. */
  ghost function Accepted(s: seq<Request>): seq<Request> {
    if s == [] then []
    else Accepted(s[..|s| - 1]) + if s[|s| - 1].version == INTERFACE_VERSION then [s[|s| - 1]] else []
  }

  /** One response for each request, in order, each for its request's vCPU and reason. */
  ghost predicate Answered(responses: seq<Response>, requests: seq<Request>) {
    |responses| == |requests| && forall i :: 0 <= i < |responses| ==> Answers(responses[i], requests[i])
  }

  ghost predicate Answers(rsp: Response, req: Request) {
    && rsp.version == req.version && rsp.vcpuId == req.vcpuId
    && rsp.reason == req.reason && rsp.vcpuPaused == req.vcpuPaused
  }

  class Ring {
    const size: u32                 // a power of two
    ghost const turns: nat
    const slots: array<Slot>
    var reqProd: u32                // sring->req_prod, advanced by the hypervisor
    var rspProd: u32                // sring->rsp_prod
    var reqEvent: u32               // sring->req_event
    var rspCons: u32                // the hypervisor's own place in the responses
    var reqCons: u32                // back_ring.req_cons
    var rspProdPvt: u32             // back_ring.rsp_prod_pvt
    ghost var produced: seq<Request>      // every request the hypervisor has put on the ring
    ghost var consumed: nat               // how many of them have been taken off
    ghost var responses: seq<Response>    // every response put on the ring
    ghost var delivered: nat              // how many of them the hypervisor has taken off

    ghost predicate Valid()
      reads this, slots
    {
      && Divides(size, turns) && slots.Length == size > 0
      && delivered <= |responses| <= consumed <= |produced| <= delivered + size
      && reqProd == Wrapped(|produced|) && reqCons == Wrapped(consumed)
      && rspProd == rspProdPvt == Wrapped(|responses|) && rspCons == Wrapped(delivered)
      && (forall i :: consumed <= i < |produced| ==> slots[SlotOf(i, size)] == Req(produced[i]))
      && (forall i :: delivered <= i < |responses| ==> slots[SlotOf(i, size)] == Rsp(responses[i]))
    }

    /** Nothing is left to consume. */
    ghost predicate Empty()
      reads this`produced, this`consumed
    {
      consumed == |produced|
    }

    constructor (size: u32, ghost turns: nat)
      requires Divides(size, turns)
      ensures Valid() && produced == [] && consumed == 0 && responses == [] && delivered == 0
      ensures this.size == size
      ensures fresh(slots)
    {
      this.size, this.turns := size, turns;
      slots := new Slot[size](_ => Req(Request(0, 0, false, MemAccess)));
      reqProd, rspProd, reqEvent, rspCons, reqCons, rspProdPvt := 0, 0, 1, 0, 0, 0;
      produced, consumed, responses, delivered := [], 0, [], 0;
    }

    /** RING_HAS_UNCONSUMED_REQUESTS: exact, although it is computed from wrapped indices. */
    method HasUnconsumedRequests() returns (n: u32)
      requires Valid()
      ensures n == |produced| - consumed
    {
      hide SlotOf, Wrapped, Divides, Sub32;
      SubWrapped(|produced|, consumed);
      SubWrapped(consumed, |responses|);
      SubWrapped(size, consumed - |responses|);
      Small(size);
      Small(consumed - |responses|);
      var req := Sub32(reqProd, reqCons);
      var rsp := Sub32(size, Sub32(reqCons, rspProdPvt));
      n := if req < rsp then req else rsp;
    }

    /** get_request. */
    method GetRequest() returns (req: Request)
      requires Valid() && !Empty()
      modifies this`reqCons, this`reqEvent, this`consumed
      ensures Valid() && consumed == old(consumed) + 1 && req == produced[old(consumed)]
      ensures slots[old(consumed) % size] == Req(req)
      ensures reqCons == consumed % 0x1_0000_0000 && reqEvent == (consumed + 1) % 0x1_0000_0000
    {
      hide SlotOf, Wrapped, Divides, Add32;
      SameSlot(consumed, size, turns);
      SlotIs(consumed, size);
      NextIndex(consumed);
      NextIndex(consumed + 1);
      WrappedIs(consumed + 1);
      WrappedIs(consumed + 2);
      var slot := slots[reqCons % size];
      req := slot.request;
      reqCons := Add32(reqCons, 1);
      reqEvent := Add32(reqCons, 1);
      consumed := consumed + 1;
    }

    /** put_response: never over a request still to be consumed, nor over a response still to be taken. */
    method PutResponse(rsp: Response)
      requires Valid() && |responses| < consumed
      modifies this`rspProdPvt, this`rspProd, this`responses, slots
      ensures Valid() && responses == old(responses) + [rsp]
      ensures slots[|old(responses)| % size] == Rsp(rsp) && rspProd == |responses| % 0x1_0000_0000
    {
      hide SlotOf, Wrapped, Divides, Add32;
      SameSlot(|responses|, size, turns);
      SlotIs(|responses|, size);
      NextIndex(|responses|);
      WrappedIs(|responses| + 1);
      forall i | consumed <= i < |produced| ensures SlotOf(i, size) != SlotOf(|responses|, size) {
        Differ(|responses|, i, size);
      }
      forall i | delivered <= i < |responses| ensures SlotOf(i, size) != SlotOf(|responses|, size) {
        Differ(i, |responses|, size);
      }
      slots[rspProdPvt % size] := Rsp(rsp);
      rspProdPvt := Add32(rspProdPvt, 1);
      rspProd := rspProdPvt;
      responses := responses + [rsp];
    }

    /** Whether the hypervisor finds a response to take off, and whether it finds room for a request. */
    method HypervisorSees() returns (hasResponse: bool, hasRoom: bool)
      requires Valid()
      ensures hasResponse == (delivered < |responses|)
      ensures hasRoom == (|produced| < delivered + size)
    {
      hide SlotOf, Wrapped, Divides, Sub32;
      SubWrapped(|responses|, delivered);
      SubWrapped(|produced|, delivered);
      hasResponse := Sub32(rspProd, rspCons) > 0;
      hasRoom := Sub32(reqProd, rspCons) < size;
    }

    /** The hypervisor takes a response off the ring. */
    method TakeResponse() returns (rsp: Response)
      requires Valid() && delivered < |responses|
      modifies this`rspCons, this`delivered
      ensures Valid() && delivered == old(delivered) + 1 && rsp == responses[old(delivered)]
    {
      hide SlotOf, Wrapped, Divides, Add32;
      SameSlot(delivered, size, turns);
      NextIndex(delivered);
      rsp := slots[rspCons % size].response;
      rspCons := Add32(rspCons, 1);
      delivered := delivered + 1;
    }

    /** The hypervisor puts a request on the ring, where it has room. */
    method PushRequest(req: Request)
      requires Valid() && |produced| < delivered + size
      modifies this`reqProd, this`produced, slots
      ensures Valid() && produced == old(produced) + [req]
    {
      hide SlotOf, Wrapped, Divides, Add32;
      SameSlot(|produced|, size, turns);
      NextIndex(|produced|);
      forall i | consumed <= i < |produced| ensures SlotOf(i, size) != SlotOf(|produced|, size) {
        Differ(i, |produced|, size);
      }
      forall i | delivered <= i < |responses| ensures SlotOf(i, size) != SlotOf(|produced|, size) {
        Differ(i, |produced|, size);
      }
      slots[reqProd % size] := Req(req);
      reqProd := Add32(reqProd, 1);
      produced := produced + [req];
    }
  }
}

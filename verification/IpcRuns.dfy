/**
 Whole runs of the IPC and event registries: any requests in any order. Messages come
 out in the order they went in, and no signal is lost before a wait consumes it.
 */
module IpcRuns {
  import opened Common
  import opened HandleSlots
  import opened MessageRing
  import opened Events
  import opened FramePools
  import opened Ipc

  datatype Request =
    | Send(caller: Handle, capability: Handle, bytes: Message)
    | Receive(caller: Handle, capability: Handle, length: nat)
    | CreateEndpoint(producer: Handle, consumer: Handle, contractId: nat, size: nat, capacity: nat, epoch: nat,
                     frames: Option<seq<nat>>)
    | Grant(owner: Handle, endpoint: Handle, rights: Rights)
    | DestroyEndpoint(endpoint: Handle)
    | DestroyService(service: Handle)
    | CreateEvent(owner: Handle)
    | CreateSet(owner: Handle)
    | AddMember(owner: Handle, eventSet: Handle, event: Handle)
    | RemoveMember(owner: Handle, eventSet: Handle, event: Handle)
    | Signal(owner: Handle, event: Handle)
    | WaitAny(owner: Handle, eventSet: Handle, now: nat, deadline: Option<nat>)
    | CancelWait(owner: Handle, eventSet: Handle)
    | DestroyEvent(owner: Handle, event: Handle)
    | DestroySet(owner: Handle, eventSet: Handle)

  /** What a request came to: a message queued, a message handed out, a signal consumed, or none of these. */
  datatype Response = Other | Delivered(endpoint: Handle) | Got(endpoint: Handle, bytes: Message) | Took(event: Handle)

  // --- Events -------------------------------------------------------------------------

  /** The event is live and signaled. */
  predicate Rings(events: EventTable, event: Handle) {
    Live(events, event) && At(events, event).signaled
  }

  function TookOf(response: Response): Option<Handle> {
    if response.Took? then Some(response.event) else None
  }

  /** Signals stay latched but for one that is consumed, and only a destroying request takes an event away. */
  ghost predicate EventStep(before: EventTable, request: Request, response: Response, after: EventTable) {
    && Latches(before, after, TookOf(response))
    && (response.Took? ==> request.WaitAny? && Rings(before, response.event))
    && forall e :: Live(before, e) && !Live(after, e) ==>
       request.DestroyEndpoint? || request.DestroyService? || (request.DestroyEvent? && request.event == e)
  }

  lemma StepRung(events: EventTable, request: Request, response: Response, event: Handle, after: EventTable)
    requires Rung(events, after, event) && !response.Took?
    ensures EventStep(events, request, response, after)
  {
    if Live(events, event) {
      ReplacedLive(events, event, At(events, event).(signaled := true));
    }
  }

  lemma StepTook(events: EventTable, request: Request, event: Handle)
    requires request.WaitAny? && Rings(events, event)
    ensures EventStep(events, request, Took(event), Replaced(events, event, At(events, event).(signaled := false)))
  {
    ReplacedLive(events, event, At(events, event).(signaled := false));
  }

  lemma StepSame(events: EventTable, request: Request, response: Response)
    requires !response.Took?
    ensures EventStep(events, request, response, events)
  {
  }

  lemma StepUnmoved(events: EventTable, request: Request, after: EventTable)
    requires SameLive(events, after)
    ensures EventStep(events, request, Other, after)
  {
  }

  lemma StepRemoved(events: EventTable, request: Request)
    requires request.DestroyEvent? && Live(events, request.event)
    ensures EventStep(events, request, Other, Removed(events, request.event.index))
  {
    RemovedLive(events, request.event);
  }

  method ServeEvents(events: EventRegistry, request: Request) returns (response: Response)
    requires events.Valid()
    modifies events
    ensures events.Valid() && EventStep(old(events.events), request, response, events.events)
            && (response == Other || response.Took?)
  {
    hide EventRegistry.Valid, Replaced, Removed;
    response := Other;
    ghost var before := events.events;
    StepSame(before, request, Other);
    match request {
      case CreateEvent(owner) =>
        var _ := events.CreateEvent(owner);
      case CreateSet(owner) =>
        var _ := events.CreateSet(owner);
      case AddMember(owner, eventSet, event) =>
        var _ := events.Add(owner, eventSet, event);
      case RemoveMember(owner, eventSet, event) =>
        var _ := events.Remove(owner, eventSet, event);
      case Signal(owner, event) =>
        var r := events.Signal(owner, event);
        if r.Ok? {
          StepRung(before, request, Other, event, events.events);
        }
      case WaitAny(owner, eventSet, now, deadline) =>
        var r := events.WaitAny(owner, eventSet, now, deadline);
        if r.Ok? && r.value.Ready? {
          response := Took(r.value.event);
          StepTook(before, request, r.value.event);
        }
      case CancelWait(owner, eventSet) =>
        var _ := events.CancelWait(owner, eventSet);
      case DestroyEvent(owner, event) =>
        var r := events.DestroyEvent(owner, event);
        if r.Ok? {
          StepRemoved(before, request);
        }
      case DestroySet(owner, eventSet) =>
        var _ := events.DestroySet(owner, eventSet);
      case _ =>
    }
  }

  // --- Messages ---------------------------------------------------------------------

  /** What a request adds to the messages sent to an endpoint. */
  function SentBy(request: Request, response: Response, endpoint: Handle): seq<Message> {
    if request.Send? && response == Delivered(endpoint) then [request.bytes] else []
  }

  /** What it adds to the messages received from one. */
  function GotBy(response: Response, endpoint: Handle): seq<Message> {
    if response.Got? && response.endpoint == endpoint then [response.bytes] else []
  }

  /** The request takes the endpoint down. */
  predicate Destroys(request: Request, endpoint: Handle, producer: Handle, consumer: Handle) {
    (request.DestroyEndpoint? && request.endpoint == endpoint)
        || (request.DestroyService? && (request.service == producer || request.service == consumer))
  }

  /** Endpoints the request does not take down stay, and their logs grow by what the response says. */
  ghost predicate LogStep(before: EndpointTable, after: EndpointTable, request: Request, response: Response, sent: Log,
                          sent': Log, received: Log, received': Log) {
    forall h :: Live(before, h) && !Destroys(request, h, At(before, h).producer, At(before, h).consumer) && h in sent
                && h in received ==>
      && Live(after, h) && At(after, h).producer == At(before, h).producer
      && At(after, h).consumer == At(before, h).consumer
      && h in sent' && sent'[h] == sent[h] + SentBy(request, response, h) && h in received'
      && received'[h] == received[h] + GotBy(response, h)
  }

  /** Endpoints go and come as the request says, and the others keep their queues where they are. */
  ghost predicate TableStep(before: EndpointTable, request: Request, after: EndpointTable) {
    && (forall h :: Live(before, h) && !Destroys(request, h, At(before, h).producer, At(before, h).consumer) ==>
          Live(after, h) && At(after, h).Frames() == At(before, h).Frames())
    && (forall h :: Live(after, h) && !Live(before, h) ==>
       request.CreateEndpoint? && At(after, h).Frames() == FramesIn(request.frames))
  }

  /** Distinct frames that no live queue is in. */
  ghost predicate FreeIn(endpoints: EndpointTable, frames: Option<seq<nat>>) {
    && Distinct(FramesIn(frames))
    && forall h, f :: Live(endpoints, h) && f in FramesIn(frames) ==> f !in At(endpoints, h).Frames()
  }

  /** A new queue is in frames of its own. */
  ghost predicate Careful(endpoints: EndpointTable, request: Request) {
    request.CreateEndpoint? ==> FreeIn(endpoints, request.frames)
  }

  lemma CarefulFree(ipc: IpcRegistry, request: Request)
    requires ipc.OwnsFrames() && request.CreateEndpoint? && Careful(ipc.endpoints, request)
    ensures Free(ipc.queueOwner, request.frames)
  {
    forall f | f in Elements(FramesIn(request.frames))
      ensures f !in ipc.queueOwner
    {
      assert f in FramesIn(request.frames);
    }
  }

  /** Endpoints came or went as the request says, and no message moved. */
  lemma LogsQuiet(before: EndpointTable, after: EndpointTable, request: Request, sent: Log, sent': Log, received: Log,
                  received': Log)
    requires forall h :: Live(before, h) && !Destroys(request, h, At(before, h).producer, At(before, h).consumer) ==>
             Live(after, h) && At(after, h) == At(before, h)
    requires forall h :: Live(before, h) && h in sent ==> h in sent' && sent'[h] == sent[h]
    requires forall h :: Live(before, h) && h in received ==> h in received' && received'[h] == received[h]
    requires forall h :: Live(after, h) && !Live(before, h) ==>
             request.CreateEndpoint? && At(after, h).Frames() == FramesIn(request.frames)
    ensures LogStep(before, after, request, Other, sent, sent', received, received')
            && TableStep(before, request, after)
  {
  }

  method ServeIpc(ipc: IpcRegistry, events: EventRegistry, pool: FramePool, request: Request)
      returns (response: Response)
    requires ipc.Valid() && events.Valid() && pool.Valid()
    modifies ipc, events, pool
    ensures ipc.Valid() && events.Valid() && pool.Valid() && !response.Took?
    ensures EventStep(old(events.events), request, response, events.events)
    ensures LogStep(old(ipc.endpoints), ipc.endpoints, request, response, old(ipc.sent), ipc.sent, old(ipc.received),
                    ipc.received)
    ensures TableStep(old(ipc.endpoints), request, ipc.endpoints)
            && (old(ipc.InOrder()) && Careful(old(ipc.endpoints), request) ==> ipc.InOrder())
  {
    hide IpcRegistry.Valid, EventRegistry.Valid, FramePool.Valid, IpcRegistry.InOrder, EventStep, LogStep, TableStep,
         EventsWithout, CapabilityKept, Doomed;
    match request {
      case Send(caller, capability, bytes) =>
        response := ServeSend(ipc, events, request);
      case Receive(caller, capability, length) =>
        response := ServeReceive(ipc, events, request);
      case CreateEndpoint(producer, consumer, contractId, size, capacity, epoch, frames) =>
        response := ServeCreate(ipc, events, request);
      case DestroyEndpoint(_) =>
        response := ServeDestroy(ipc, events, pool, request);
      case DestroyService(_) =>
        response := ServeDestroy(ipc, events, pool, request);
      case Grant(owner, endpoint, rights) =>
        var _ := ipc.Grant(owner, endpoint, rights);
        response := Other;
        StepSame(events.events, request, Other);
        LogsQuiet(ipc.endpoints, ipc.endpoints, request, ipc.sent, ipc.sent, ipc.received, ipc.received);
      case _ =>
        response := Other;
        StepSame(events.events, request, Other);
        LogsQuiet(ipc.endpoints, ipc.endpoints, request, ipc.sent, ipc.sent, ipc.received, ipc.received);
    }
  }

  method ServeCreate(ipc: IpcRegistry, events: EventRegistry, request: Request) returns (response: Response)
    requires ipc.Valid() && events.Valid() && request.CreateEndpoint?
    modifies ipc, events
    ensures ipc.Valid() && events.Valid() && response == Other
    ensures EventStep(old(events.events), request, response, events.events)
    ensures LogStep(old(ipc.endpoints), ipc.endpoints, request, response, old(ipc.sent), ipc.sent, old(ipc.received),
                    ipc.received)
    ensures TableStep(old(ipc.endpoints), request, ipc.endpoints)
            && (old(ipc.InOrder()) && Careful(old(ipc.endpoints), request) ==> ipc.InOrder())
  {
    hide IpcRegistry.Valid, EventRegistry.Valid, EventStep, LogStep, TableStep, EventsGrew, Careful, Free, FramesApart,
         Flowing;
    if ipc.InOrder() && Careful(ipc.endpoints, request) {
      CarefulFree(ipc, request);
    }
    var r := ipc.CreateEndpoint(request.producer, request.consumer, request.contractId, request.size, request.capacity,
                                request.epoch, request.frames, events);
    response := Other;
    if r.Ok? {
      StepGrew(old(events.events), request, events.events);
    } else {
      StepUnmoved(old(events.events), request, events.events);
    }
    LogsQuiet(old(ipc.endpoints), ipc.endpoints, request, old(ipc.sent), ipc.sent, old(ipc.received), ipc.received);
  }

  method ServeDestroy(ipc: IpcRegistry, events: EventRegistry, pool: FramePool, request: Request)
      returns (response: Response)
    requires ipc.Valid() && events.Valid() && pool.Valid() && (request.DestroyEndpoint? || request.DestroyService?)
    modifies ipc, events, pool
    ensures ipc.Valid() && events.Valid() && pool.Valid() && response == Other
    ensures EventStep(old(events.events), request, response, events.events)
    ensures LogStep(old(ipc.endpoints), ipc.endpoints, request, response, old(ipc.sent), ipc.sent, old(ipc.received),
                    ipc.received)
    ensures TableStep(old(ipc.endpoints), request, ipc.endpoints)
            && (old(ipc.InOrder()) && Careful(old(ipc.endpoints), request) ==> ipc.InOrder())
  {
    hide IpcRegistry.Valid, EventRegistry.Valid, FramePool.Valid, IpcRegistry.InOrder, EventStep, LogStep, TableStep,
         EventsWithout, CapabilityKept, Doomed;
    response := Other;
    if request.DestroyService? {
      ipc.DestroyService(request.service, events, pool);
      StepGone(old(ipc.Snap(events)), request, ipc.Snap(events), request.service);
    } else {
      var _ := ipc.DestroyEndpointWithPool(request.endpoint, events, pool);
      if Live(old(ipc.endpoints), request.endpoint) {
        StepDestroyed(old(ipc.Snap(events)), request, ipc.Snap(events), request.endpoint);
      } else {
        StepSame(events.events, request, Other);
      }
    }
    LogsQuiet(old(ipc.endpoints), ipc.endpoints, request, old(ipc.sent), ipc.sent, old(ipc.received), ipc.received);
  }

  method ServeSend(ipc: IpcRegistry, events: EventRegistry, request: Request) returns (response: Response)
    requires ipc.Valid() && events.Valid() && request.Send?
    modifies ipc, events
    ensures ipc.Valid() && events.Valid() && !response.Took?
    ensures EventStep(old(events.events), request, response, events.events)
    ensures LogStep(old(ipc.endpoints), ipc.endpoints, request, response, old(ipc.sent), ipc.sent, old(ipc.received),
                    ipc.received)
    ensures TableStep(old(ipc.endpoints), request, ipc.endpoints)
            && (old(ipc.InOrder()) && Careful(old(ipc.endpoints), request) ==> ipc.InOrder())
  {
    hide IpcRegistry.Valid, EventRegistry.Valid, IpcRegistry.InOrder, EventStep, Rung, LogStep, TableStep, Replaced,
         Destroys;
    var status := ipc.Send(request.caller, request.capability, request.bytes, events);
    if status == Done {
      var endpoint := At(ipc.capabilities, request.capability).endpoint;
      response := Delivered(endpoint);
      StepRung(old(events.events), request, response, At(old(ipc.endpoints), endpoint).readEvent, events.events);
      LogsMoved(old(ipc.endpoints), request, response, endpoint,
                Pushed(At(old(ipc.endpoints), endpoint).ring, old(ipc.memory), request.bytes), old(ipc.sent),
          ipc.received);
      assert ipc.received[endpoint] + [] == ipc.received[endpoint];
      assert ipc.received[endpoint := ipc.received[endpoint]] == ipc.received;
    } else {
      response := Other;
      StepSame(events.events, request, response);
      LogsQuiet(ipc.endpoints, ipc.endpoints, request, ipc.sent, ipc.sent, ipc.received, ipc.received);
    }
  }

  method ServeReceive(ipc: IpcRegistry, events: EventRegistry, request: Request) returns (response: Response)
    requires ipc.Valid() && events.Valid() && request.Receive?
    modifies ipc, events
    ensures ipc.Valid() && events.Valid() && !response.Took?
    ensures EventStep(old(events.events), request, response, events.events)
    ensures LogStep(old(ipc.endpoints), ipc.endpoints, request, response, old(ipc.sent), ipc.sent, old(ipc.received),
                    ipc.received)
    ensures TableStep(old(ipc.endpoints), request, ipc.endpoints)
            && (old(ipc.InOrder()) && Careful(old(ipc.endpoints), request) ==> ipc.InOrder())
  {
    hide IpcRegistry.Valid, EventRegistry.Valid, IpcRegistry.InOrder, EventStep, Rung, LogStep, TableStep, Replaced,
         Destroys;
    var status, bytes := ipc.Receive(request.caller, request.capability, request.length, events);
    if status == Done {
      var endpoint := At(ipc.capabilities, request.capability).endpoint;
      response := Response.Got(endpoint, bytes);
      StepRung(old(events.events), request, response, At(old(ipc.endpoints), endpoint).writeEvent, events.events);
      LogsMoved(old(ipc.endpoints), request, response, endpoint, Popped(At(old(ipc.endpoints), endpoint).ring),
                ipc.sent, old(ipc.received));
      assert ipc.sent[endpoint] + [] == ipc.sent[endpoint];
      assert ipc.sent[endpoint := ipc.sent[endpoint]] == ipc.sent;
    } else {
      response := Other;
      StepSame(events.events, request, response);
      LogsQuiet(ipc.endpoints, ipc.endpoints, request, ipc.sent, ipc.sent, ipc.received, ipc.received);
    }
  }

  /** One endpoint's ring and logs moved on. */
  lemma LogsMoved(endpoints: EndpointTable, request: Request, response: Response, endpoint: Handle, ring: Ring,
                  sent: Log, received: Log)
    requires Live(endpoints, endpoint) && endpoint in sent && endpoint in received
             && (request.Send? || request.Receive?)
    requires response == Delivered(endpoint) || (request.Receive? && response.Got? && response.endpoint == endpoint)
    requires At(endpoints, endpoint).(ring := ring).Frames() == At(endpoints, endpoint).Frames()
    ensures var after := Replaced(endpoints, endpoint, At(endpoints, endpoint).(ring := ring));
            && TableStep(endpoints, request, after)
            && LogStep(endpoints, after, request, response, sent,
                       sent[endpoint := sent[endpoint] + SentBy(request, response, endpoint)],
                       received, received[endpoint := received[endpoint] + GotBy(response, endpoint)])
  {
    hide Replaced;
    ReplacedLive(endpoints, endpoint, At(endpoints, endpoint).(ring := ring));
  }

  lemma StepGrew(before: EventTable, request: Request, after: EventTable)
    requires exists a, ao, b, bo :: EventsGrew(before, after, a, ao, b, bo)
    ensures EventStep(before, request, Other, after)
  {
  }

  lemma StepDestroyed(before: Snapshot, request: Request, after: Snapshot, endpoint: Handle)
    requires request.DestroyEndpoint? && Destroyed(before, after, endpoint)
    ensures EventStep(before.events, request, Other, after.events)
  {
  }

  lemma StepGone(before: Snapshot, request: Request, after: Snapshot, service: Handle)
    requires request.DestroyService? && ServiceGone(before, after, service)
    ensures EventStep(before.events, request, Other, after.events)
  {
    hide Doomed, CapabilityKept;
  }

  lemma TableSame(endpoints: EndpointTable, request: Request)
    ensures TableStep(endpoints, request, endpoints)
  {
  }

  /** Serve any request. */
  method Serve(ipc: IpcRegistry, events: EventRegistry, pool: FramePool, request: Request) returns (response: Response)
    requires ipc.Valid() && events.Valid() && pool.Valid()
    modifies ipc, events, pool
    ensures ipc.Valid() && events.Valid() && pool.Valid()
    ensures EventStep(old(events.events), request, response, events.events)
    ensures LogStep(old(ipc.endpoints), ipc.endpoints, request, response, old(ipc.sent), ipc.sent, old(ipc.received),
                    ipc.received)
    ensures TableStep(old(ipc.endpoints), request, ipc.endpoints)
            && (old(ipc.InOrder()) && Careful(old(ipc.endpoints), request) ==> ipc.InOrder())
  {
    hide IpcRegistry.Valid, IpcRegistry.InOrder, EventRegistry.Valid, FramePool.Valid, EventStep, TableStep;
    if request.Send? || request.Receive? || request.CreateEndpoint? || request.Grant? || request.DestroyEndpoint?
        || request.DestroyService? {
      response := ServeIpc(ipc, events, pool, request);
    } else {
      response := ServeEvents(events, request);
      TableSame(ipc.endpoints, request);
    }
  }

  // --- Runs -------------------------------------------------------------------------

  /** The event table before each request and after the last. */
  ghost predicate EventTrace(requests: seq<Request>, responses: seq<Response>, trace: seq<EventTable>) {
    && |trace| == |responses| + 1 && |responses| <= |requests|
    && forall k :: 0 <= k < |responses| ==> EventStep(trace[k], requests[k], responses[k], trace[k + 1])
  }

  /** The event was there all along, and no wait consumed it. */
  ghost predicate Kept(responses: seq<Response>, trace: seq<EventTable>, event: Handle) {
    (forall k :: 0 <= k < |trace| ==> Live(trace[k], event)) && forall k :: 0 <= k < |responses| ==>
        responses[k] != Took(event)
  }

  /** A signal stays latched until it is consumed or its event destroyed. */
  lemma {:induction false} StaysLatched(requests: seq<Request>, responses: seq<Response>, trace: seq<EventTable>,
                                        event: Handle)
    requires EventTrace(requests, responses, trace) && Kept(responses, trace, event) && Rings(trace[0], event)
    ensures Rings(trace[|responses|], event)
    decreases |responses|
  {
    if |responses| > 0 {
      var last := |responses| - 1;
      StaysLatched(requests, responses[..last], trace[..|responses|], event);
      assert EventStep(trace[last], requests[last], responses[last], trace[last + 1]);
    }
  }

  lemma {:induction false} TraceGrows(requests: seq<Request>, responses: seq<Response>, trace: seq<EventTable>,
                                      response: Response, after: EventTable)
    requires EventTrace(requests, responses, trace) && |responses| < |requests|
             && EventStep(trace[|responses|], requests[|responses|], response, after)
    ensures EventTrace(requests, responses + [response], trace + [after])
  {
    hide EventStep;
    var longer := trace + [after];
    forall k | 0 <= k < |responses|
      ensures EventStep(longer[k], requests[k], (responses + [response])[k], longer[k + 1])
    {
      assert EventStep(trace[k], requests[k], responses[k], trace[k + 1]);
    }
  }

  ghost function AllSent(requests: seq<Request>, responses: seq<Response>, endpoint: Handle): seq<Message>
    requires |responses| <= |requests|
  {
    if |responses| == 0 then [] else
    var last := |responses| - 1;
    AllSent(requests, responses[..last], endpoint) + SentBy(requests[last], responses[last], endpoint)
  }

  ghost function AllGot(responses: seq<Response>, endpoint: Handle): seq<Message> {
    if |responses| == 0 then [] else AllGot(responses[..|responses| - 1], endpoint)
                                     + GotBy(responses[|responses| - 1], endpoint)
  }

  /** The first requests leave the endpoint standing. */
  ghost predicate Spared(requests: seq<Request>, count: nat, endpoint: Handle, producer: Handle, consumer: Handle)
    requires count <= |requests|
  {
    forall k :: 0 <= k < count ==> !Destroys(requests[k], endpoint, producer, consumer)
  }

  /** What was received is a prefix of what was sent; the rest waits in the ring, within capacity. */
  ghost predicate Flow(ipc: IpcRegistry, endpoint: Handle)
    reads ipc
  {
    && Live(ipc.endpoints, endpoint) && endpoint in ipc.sent && endpoint in ipc.received
    && var ring := At(ipc.endpoints, endpoint).ring;
       RingOk(ring) && Paged(ipc.memory)
       && ipc.sent[endpoint] == ipc.received[endpoint] + Contents(ring, ipc.memory)
       && |Contents(ring, ipc.memory)| <= Places(ring.storage)
  }

  lemma FlowNow(ipc: IpcRegistry, endpoint: Handle)
    requires ipc.Valid()
    ensures Live(ipc.endpoints, endpoint) ==> endpoint in ipc.sent && endpoint in ipc.received
    ensures Live(ipc.endpoints, endpoint) && ipc.InOrder() ==> Flow(ipc, endpoint)
  {
    hide TotalCapacity, Stored, Pages;
    if Live(ipc.endpoints, endpoint) {
      var ring := At(ipc.endpoints, endpoint).ring;
      assert EndpointOk(At(ipc.endpoints, endpoint), endpoint);
      PagesWhole(ring, ipc.memory);
      StoredLength(Pages(ring.storage, ipc.memory), ring.head, ring.length, ring.bytes);
    }
  }

  /** The endpoint is live between the same services, and its logs hold what the run added to them. */
  ghost predicate Carried(endpoints: EndpointTable, sent: Log, received: Log, endpoint: Handle, producer: Handle,
                          consumer: Handle,
                          allSent: seq<Message>, allGot: seq<Message>) {
    && Live(endpoints, endpoint) && At(endpoints, endpoint).producer == producer
    && At(endpoints, endpoint).consumer == consumer
    && endpoint in sent && sent[endpoint] == allSent && endpoint in received && received[endpoint] == allGot
  }

  lemma {:induction false} CarriedOn(before: EndpointTable, after: EndpointTable, sent: Log, sent': Log, received: Log,
                                     received': Log, requests: seq<Request>, responses: seq<Response>,
                  response: Response, endpoint: Handle, producer: Handle, consumer: Handle, start: seq<Message>,
                      got: seq<Message>)
    requires |responses| < |requests| && LogStep(before, after, requests[|responses|], response, sent, sent', received,
                                                 received')
    requires !Destroys(requests[|responses|], endpoint, producer, consumer)
    requires Carried(before, sent, received, endpoint, producer, consumer,
                     start + AllSent(requests, responses, endpoint), got + AllGot(responses, endpoint))
    ensures Carried(after, sent', received', endpoint, producer, consumer,
                    start + AllSent(requests, responses + [response], endpoint),
            got + AllGot(responses + [response], endpoint))
  {
    assert (responses + [response])[..|responses|] == responses;
  }

  /** The endpoints before each request and after the last. */
  ghost predicate TableTrace(requests: seq<Request>, tables: seq<EndpointTable>) {
    0 < |tables| <= |requests| + 1 && forall k :: 0 <= k < |tables| - 1 ==>
        TableStep(tables[k], requests[k], tables[k + 1])
  }

  /** Every new queue is in frames that are distinct and in no live queue when it is created. */
  ghost predicate AllCareful(requests: seq<Request>, tables: seq<EndpointTable>, count: nat)
    requires count <= |requests| && count <= |tables|
  {
    forall k :: 0 <= k < count ==> Careful(tables[k], requests[k])
  }

  lemma {:induction false} TablesGrow(requests: seq<Request>, tables: seq<EndpointTable>, after: EndpointTable)
    requires TableTrace(requests, tables) && |tables| <= |requests|
             && TableStep(tables[|tables| - 1], requests[|tables| - 1], after)
    ensures TableTrace(requests, tables + [after])
    ensures AllCareful(requests, tables + [after], |tables|) <==>
              AllCareful(requests, tables, |tables| - 1) && Careful(tables[|tables| - 1], requests[|tables| - 1])
  {
    hide TableStep, Careful;
    var longer := tables + [after];
    forall k | 0 <= k < |tables| - 1
      ensures TableStep(longer[k], requests[k], longer[k + 1])
    {
      assert TableStep(tables[k], requests[k], tables[k + 1]);
    }
    assert forall k :: 0 <= k < |tables| ==> longer[k] == tables[k];
  }

  /**
   Any run. On an endpoint that no request takes down, the messages received since are,
   after those received before, a prefix of those sent, and the rest waits in the ring, as
   long as every queue created is in frames of its own.
   */
  method Run(ipc: IpcRegistry, events: EventRegistry, pool: FramePool, requests: seq<Request>, ghost endpoint: Handle)
    returns (responses: seq<Response>, ghost trace: seq<EventTable>, ghost tables: seq<EndpointTable>)
    requires ipc.Valid() && events.Valid() && pool.Valid()
    modifies ipc, events, pool
    ensures ipc.Valid() && events.Valid() && pool.Valid()
    ensures |responses| == |requests| && EventTrace(requests, responses, trace) && trace[0] == old(events.events)
            && trace[|requests|] == events.events
    ensures |tables| == |requests| + 1 && TableTrace(requests, tables) && tables[0] == old(ipc.endpoints)
            && tables[|requests|] == ipc.endpoints
    ensures old(ipc.InOrder()) && AllCareful(requests, tables, |requests|) ==> ipc.InOrder()
    ensures Live(old(ipc.endpoints), endpoint)
            && Spared(requests, |requests|, endpoint, At(old(ipc.endpoints), endpoint).producer,
                      At(old(ipc.endpoints), endpoint).consumer) ==>
              && Live(ipc.endpoints, endpoint) && endpoint in old(ipc.sent) && endpoint in old(ipc.received)
              && endpoint in ipc.sent && endpoint in ipc.received
              && ipc.sent[endpoint] == old(ipc.sent)[endpoint] + AllSent(requests, responses, endpoint)
              && ipc.received[endpoint] == old(ipc.received)[endpoint] + AllGot(responses, endpoint)
              && (old(ipc.InOrder()) && AllCareful(requests, tables, |requests|) ==> Flow(ipc, endpoint))
  {
    hide IpcRegistry.Valid, IpcRegistry.InOrder, EventRegistry.Valid, FramePool.Valid, EventStep, LogStep, TableStep,
         EventTrace, TableTrace, AllCareful, Careful, Flow, Destroys,
         AllSent, AllGot;
    responses, trace, tables := [], [events.events], [ipc.endpoints];
    StartTrace(requests, events.events, ipc.endpoints);
    FlowNow(ipc, endpoint);
    ghost var was := Live(ipc.endpoints, endpoint);
    ghost var producer, consumer := if was then At(ipc.endpoints, endpoint).producer else endpoint, if was
        then At(ipc.endpoints, endpoint).consumer else endpoint;
    StartLogs(ipc, requests, endpoint);
    ghost var start, got := if was then ipc.sent[endpoint] else [], if was then ipc.received[endpoint] else [];
    for served := 0 to |requests|
      invariant ipc.Valid() && events.Valid() && pool.Valid()
      invariant |responses| == served && EventTrace(requests, responses, trace) && |trace| == served + 1
                && trace[0] == old(events.events) && trace[served] == events.events
      invariant |tables| == served + 1 && TableTrace(requests, tables) && tables[0] == old(ipc.endpoints)
                && tables[served] == ipc.endpoints
      invariant old(ipc.InOrder()) && AllCareful(requests, tables, served) ==> ipc.InOrder()
      invariant was && Spared(requests, served, endpoint, producer, consumer) ==>
                  Carried(ipc.endpoints, ipc.sent, ipc.received, endpoint, producer, consumer,
                          start + AllSent(requests, responses, endpoint), got + AllGot(responses, endpoint))
    {
      ghost var endpoints, sent, received := ipc.endpoints, ipc.sent, ipc.received;
      var response := Serve(ipc, events, pool, requests[served]);
      TraceGrows(requests, responses, trace, response, events.events);
      TablesGrow(requests, tables, ipc.endpoints);
      if was && Spared(requests, served + 1, endpoint, producer, consumer) {
        CarriedOn(endpoints, ipc.endpoints, sent, ipc.sent, received, ipc.received, requests, responses, response,
                  endpoint, producer, consumer, start, got);
      }
      responses, trace, tables := responses + [response], trace + [events.events], tables + [ipc.endpoints];
    }
    FlowNow(ipc, endpoint);
  }

  lemma StartTrace(requests: seq<Request>, events: EventTable, endpoints: EndpointTable)
    ensures EventTrace(requests, [], [events]) && TableTrace(requests, [endpoints])
            && AllCareful(requests, [endpoints], 0)
  {
  }

  lemma {:induction false} StartLogs(ipc: IpcRegistry, requests: seq<Request>, endpoint: Handle)
    requires Live(ipc.endpoints, endpoint) ==> endpoint in ipc.sent && endpoint in ipc.received
    ensures Live(ipc.endpoints, endpoint) ==>
              ipc.sent[endpoint] + AllSent(requests, [], endpoint) == ipc.sent[endpoint]
                  && ipc.received[endpoint] + AllGot([], endpoint) == ipc.received[endpoint]
  {
  }

  // --- Nobody sleeps through a message ------------------------------------------------

  /**
   A reader that found the queue empty does not sleep through a message: once a send has
   succeeded, then whatever else happens, a wait on a set with the read event is ready,
   unless the event was consumed or destroyed in between.
   */
  method ReaderIsWoken(ipc: IpcRegistry, events: EventRegistry, pool: FramePool, caller: Handle, capability: Handle,
                       bytes: Message,
                       between: seq<Request>, reader: Handle, eventSet: Handle, now: nat, deadline: Option<nat>)
    returns (status: IpcStatus, r: Result<EventWait, EventError>, responses: seq<Response>,
             ghost trace: seq<EventTable>)
    requires ipc.Valid() && events.Valid() && pool.Valid()
    modifies ipc, events, pool
    ensures status == Done ==> Addressed(old(ipc.endpoints), old(ipc.capabilities), caller, capability, SendRight,
                                         |bytes|)
    ensures |responses| == |between| && EventTrace(between, responses, trace)
    ensures status == Done ==> Rung(old(events.events), trace[0],
                                    At(old(ipc.endpoints), At(old(ipc.capabilities), capability).endpoint).readEvent)
    ensures r.Ok? ==> Live(events.sets, eventSet)
    ensures status == Done && r.Ok? ==>
              var event := At(old(ipc.endpoints), At(old(ipc.capabilities), capability).endpoint).readEvent;
              Kept(responses, trace, event) && event in At(events.sets, eventSet).members ==> r.value.Ready?
  {
    hide IpcRegistry.Valid, EventRegistry.Valid, FramePool.Valid, IpcRegistry.InOrder, EventTrace, Kept;
    status := ipc.Send(caller, capability, bytes, events);
    ghost var tables;
    responses, trace, tables := Run(ipc, events, pool, between, caller);
    if status == Done {
      Awaited(old(events.events), between, responses, trace,
              At(old(ipc.endpoints), At(old(ipc.capabilities), capability).endpoint).readEvent);
    }
    r := events.WaitAny(reader, eventSet, now, deadline);
  }

  /** An event that was rung and kept still rings. */
  lemma Awaited(events: EventTable, requests: seq<Request>, responses: seq<Response>, trace: seq<EventTable>,
                event: Handle)
    requires EventTrace(requests, responses, trace) && Rung(events, trace[0], event)
    ensures Kept(responses, trace, event) ==> Rings(trace[|responses|], event)
  {
    hide EventTrace;
    if Kept(responses, trace, event) {
      TraceLength(requests, responses, trace);
      assert Live(trace[0], event);
      RungRings(events, trace[0], event);
      StaysLatched(requests, responses, trace, event);
    }
  }

  lemma TraceLength(requests: seq<Request>, responses: seq<Response>, trace: seq<EventTable>)
    requires EventTrace(requests, responses, trace)
    ensures |trace| == |responses| + 1
  {
  }

  lemma RungRings(before: EventTable, after: EventTable, event: Handle)
    requires Rung(before, after, event) && Live(after, event)
    ensures Rings(after, event)
  {
  }

  /** The same for a writer that found the queue full: a receive wakes it. */
  method WriterIsWoken(ipc: IpcRegistry, events: EventRegistry, pool: FramePool, caller: Handle, capability: Handle,
                       length: nat,
                       between: seq<Request>, writer: Handle, eventSet: Handle, now: nat, deadline: Option<nat>)
    returns (status: IpcStatus, r: Result<EventWait, EventError>, responses: seq<Response>,
             ghost trace: seq<EventTable>)
    requires ipc.Valid() && events.Valid() && pool.Valid()
    modifies ipc, events, pool
    ensures status == Done ==> Addressed(old(ipc.endpoints), old(ipc.capabilities), caller, capability, ReceiveRight,
                                         length)
    ensures |responses| == |between| && EventTrace(between, responses, trace)
    ensures status == Done ==> Rung(old(events.events), trace[0],
                                    At(old(ipc.endpoints), At(old(ipc.capabilities), capability).endpoint).writeEvent)
    ensures r.Ok? ==> Live(events.sets, eventSet)
    ensures status == Done && r.Ok? ==>
              var event := At(old(ipc.endpoints), At(old(ipc.capabilities), capability).endpoint).writeEvent;
              Kept(responses, trace, event) && event in At(events.sets, eventSet).members ==> r.value.Ready?
  {
    hide IpcRegistry.Valid, EventRegistry.Valid, FramePool.Valid, IpcRegistry.InOrder, EventTrace, Kept;
    var message;
    status, message := ipc.Receive(caller, capability, length, events);
    ghost var tables;
    responses, trace, tables := Run(ipc, events, pool, between, caller);
    if status == Done {
      Awaited(old(events.events), between, responses, trace,
              At(old(ipc.endpoints), At(old(ipc.capabilities), capability).endpoint).writeEvent);
    }
    r := events.WaitAny(writer, eventSet, now, deadline);
  }

  // --- One frame twice ------------------------------------------------------------------

  /** In a queue whose two places are one frame, what is read is what was written last. */
  lemma LastWritten(ring: Ring, memory: Memory, frame: nat, message: Message)
    requires Pushable(ring, memory, message) && ring.storage == Frames([frame, frame])
    ensures var after := Pushed(ring, memory, message); RingOk(after)
                                                        && First(after, MemoryPushed(ring, memory, message)) == message
  {
    PushedOk(ring, memory, message);
    assert [frame, frame][ring.tail] == [frame, frame][ring.head] == frame;
  }

  const FIRST_SERVICE: Handle := Handle(0, 1)
  const SECOND_SERVICE: Handle := Handle(1, 1)

  /** Two services have the two sides of one queue whose two places are one frame. */
  ghost predicate InOneFrame(endpoints: EndpointTable, capabilities: CapabilityTable, send: Handle, receive: Handle,
                             frame: nat, bytes: nat, length: nat) {
    && Live(capabilities, send) && At(capabilities, send).owner == FIRST_SERVICE
    && At(capabilities, send).rights == SendRight
    && Live(capabilities, receive) && At(capabilities, receive).owner == SECOND_SERVICE
    && At(capabilities, receive).rights == ReceiveRight
    && At(capabilities, send).endpoint == At(capabilities, receive).endpoint
    && Live(endpoints, At(capabilities, send).endpoint)
    && var ring := At(endpoints, At(capabilities, send).endpoint).ring;
       RingOk(ring) && ring.storage == Frames([frame, frame]) && ring.bytes == bytes && ring.length == length
  }

  /** Nothing keeps a queue from being made of one frame twice. */
  method OpenInOneFrame(frame: nat, bytes: nat)
      returns (ipc: IpcRegistry, events: EventRegistry, send: Handle, receive: Handle)
    requires 0 < bytes <= IPC_PAGE_BYTES
    ensures fresh(ipc) && fresh(events) && ipc.Valid() && events.Valid()
    ensures InOneFrame(ipc.endpoints, ipc.capabilities, send, receive, frame, bytes, 0)
  {
    hide EventRegistry.Valid, IpcRegistry.InOrder, IpcRegistry.OwnsFrames, EventsGrew, Unmoved, Crowded;
    events := new EventRegistry(1, []);
    ipc := new IpcRegistry(1, 2, []);
    var created := ipc.CreateEndpoint(FIRST_SERVICE, SECOND_SERVICE, 1, bytes, 2, 1, Some([frame, frame]), events);
    var endpoint := created.value;
    var sending := ipc.Grant(FIRST_SERVICE, endpoint, SendRight);
    var receiving := ipc.Grant(SECOND_SERVICE, endpoint, ReceiveRight);
    send, receive := sending.value, receiving.value;
  }

  /** What is sent is then at the head, whatever was there. */
  method SendInOneFrame(ipc: IpcRegistry, events: EventRegistry, send: Handle, receive: Handle, frame: nat, length: nat,
                        message: Message)
    requires ipc.Valid() && events.Valid() && length < 2
             && InOneFrame(ipc.endpoints, ipc.capabilities, send, receive, frame, |message|, length)
    modifies ipc`endpoints, ipc`sent, ipc`memory, events`events, events`woken
    ensures ipc.Valid() && events.Valid() && InOneFrame(ipc.endpoints, ipc.capabilities, send, receive, frame,
                                                        |message|, length + 1)
    ensures First(At(ipc.endpoints, At(ipc.capabilities, send).endpoint).ring, ipc.memory) == message
  {
    hide EventRegistry.Valid, IpcRegistry.InOrder, IpcRegistry.OwnsFrames, TotalCapacity, Pushed, MemoryPushed, First,
         Rung, RingOk;
    ghost var endpoint := At(ipc.capabilities, send).endpoint;
    ghost var ring, memory := At(ipc.endpoints, endpoint).ring, ipc.memory;
    var _ := ipc.Send(FIRST_SERVICE, send, message, events);
    PushedFields(ring, memory, message);
    LastWritten(ring, memory, frame, message);
  }

  /** A queue in one frame twice is accepted, and hands out its second message first. */
  method SharedFrame(frame: nat, first: Message, second: Message) returns (received: Message)
    requires 0 < |first| == |second| <= IPC_PAGE_BYTES
    ensures received == second
  {
    hide EventRegistry.Valid, IpcRegistry.Valid, IpcRegistry.InOrder, IpcRegistry.OwnsFrames, First, Rung, RingOk;
    var ipc, events, send, receive := OpenInOneFrame(frame, |first|);
    SendInOneFrame(ipc, events, send, receive, frame, 0, first);
    SendInOneFrame(ipc, events, send, receive, frame, 1, second);
    var status;
    status, received := ipc.Receive(SECOND_SERVICE, receive, |first|, events);
  }

  /**
   An endpoint taken down without room for the list of its frames is still there, without its
   events and beside the budget.
   */
  method RemovedWithoutRoom(frame: nat) returns (ipc: IpcRegistry, events: EventRegistry, endpoint: Handle)
    ensures Live(ipc.endpoints, endpoint) && !ipc.Valid() && ipc.committed == 0
    ensures !Live(events.events, At(ipc.endpoints, endpoint).readEvent)
            && !Live(events.events, At(ipc.endpoints, endpoint).writeEvent)
  {
    hide EventRegistry.Valid, IpcRegistry.InOrder, IpcRegistry.OwnsFrames, Unmoved, Crowded, RingOk;
    events := new EventRegistry(1, []);
    ipc := new IpcRegistry(1, 1, []);
    var created := ipc.CreateEndpoint(FIRST_SERVICE, SECOND_SERVICE, 1, 1, 1, 1, Some([frame]), events);
    endpoint := created.value;
    var _ := ipc.DestroyEndpoint(endpoint, events, false);
  }
}

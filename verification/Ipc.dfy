/**
 IPC endpoints, the capabilities that name them and their message queues.

 `sent` and `received` list, for each live endpoint, the messages accepted and handed
 out so far. `queueOwner` says which endpoint holds each queue frame.
 */
module Ipc {
  import opened Common
  import opened HandleSlots
  import opened MessageRing
  import opened Events
  import opened FramePools

  const MAX_QUEUE: nat := 65535

  datatype Rights = SendRight | ReceiveRight

  datatype IpcStatus = Done | Malformed | Full | Empty | Stale | Unauthorized | Disconnected

  datatype Endpoint =
    Endpoint(handle: Handle, producer: Handle, consumer: Handle, contractId: nat, epoch: nat,
             readEvent: Handle, writeEvent: Handle, ring: Ring) {
    /** The frames its queue is in, if it is in frames. */
    function Frames(): seq<nat> {
      if ring.storage.Frames? then ring.storage.frames else []
    }
  }

  datatype Capability = Capability(handle: Handle, owner: Handle, endpoint: Handle, rights: Rights, epoch: nat)

  type EndpointTable = seq<Slot<Endpoint>>

  type CapabilityTable = seq<Slot<Capability>>

  type Log = map<Handle, seq<Message>>

  // --- Invariants ---------------------------------------------------------------

  ghost predicate EndpointOk(endpoint: Endpoint, handle: Handle) {
    && endpoint.handle == handle && RingOk(endpoint.ring) && Places(endpoint.ring.storage) <= MAX_QUEUE
    && endpoint.producer != endpoint.consumer && endpoint.producer.Valid() && endpoint.consumer.Valid()
  }

  ghost predicate EndpointsOk(endpoints: EndpointTable) {
    forall h :: Live(endpoints, h) ==> EndpointOk(At(endpoints, h), h)
  }

  /** The side of an endpoint a right belongs to. */
  function Side(endpoint: Endpoint, rights: Rights): Handle {
    if rights == SendRight then endpoint.producer else endpoint.consumer
  }

  /** A capability names a live endpoint of its epoch, on its owner's side. */
  predicate Grants(endpoints: EndpointTable, capability: Capability) {
    && Live(endpoints, capability.endpoint) && At(endpoints, capability.endpoint).epoch == capability.epoch
    && Side(At(endpoints, capability.endpoint), capability.rights) == capability.owner
  }

  ghost predicate CapabilitiesOk(endpoints: EndpointTable, capabilities: CapabilityTable) {
    forall c :: Live(capabilities, c) ==> At(capabilities, c).handle == c && Grants(endpoints, At(capabilities, c))
  }

  function Capacity(slot: Slot<Endpoint>): nat {
    if slot.value.Some? then Places(slot.value.value.ring.storage) else 0
  }

  function TotalCapacity(endpoints: EndpointTable): nat {
    if |endpoints| == 0 then 0 else TotalCapacity(endpoints[..|endpoints| - 1]) + Capacity(endpoints[|endpoints| - 1])
  }

  ghost predicate LogsKept(endpoints: EndpointTable, sent: Log, received: Log) {
    forall h :: Live(endpoints, h) ==> h in sent && h in received
  }

  /** What was received is a prefix of what was sent, and the rest is in the ring. */
  ghost predicate Flowing(endpoints: EndpointTable, memory: Memory, sent: Log, received: Log) {
    && Paged(memory)
    && forall h :: Live(endpoints, h) && RingOk(At(endpoints, h).ring) ==>
         h in sent && h in received && sent[h] == received[h] + Contents(At(endpoints, h).ring, memory)
  }

  /** Every queue frame belongs to one live endpoint. */
  ghost predicate FramesApart(endpoints: EndpointTable, queueOwner: map<nat, Handle>) {
    && (forall h :: Live(endpoints, h) ==> Distinct(At(endpoints, h).Frames()))
    && (forall h, f :: Live(endpoints, h) && f in At(endpoints, h).Frames() ==> f in queueOwner && queueOwner[f] == h)
    && (forall f :: f in queueOwner ==> Live(endpoints, queueOwner[f]) && f in At(endpoints, queueOwner[f]).Frames())
  }

  // --- Totals -------------------------------------------------------------------

  lemma {:induction false} CapacityAfter(endpoints: EndpointTable, i: nat, slot: Slot<Endpoint>)
    requires i < |endpoints|
    ensures TotalCapacity(endpoints[i := slot]) + Capacity(endpoints[i]) == TotalCapacity(endpoints) + Capacity(slot)
  {
    var last := |endpoints| - 1;
    if i < last {
      CapacityAfter(endpoints[..last], i, slot);
      assert endpoints[i := slot][..last] == endpoints[..last][i := slot];
    } else {
      assert endpoints[i := slot][..last] == endpoints[..last];
    }
  }

  lemma {:induction false} CapacityPut(endpoints: EndpointTable, seed: nat, index: nat, endpoint: Endpoint)
    requires index <= |endpoints| && (index < |endpoints| ==> endpoints[index].value.None?)
    ensures TotalCapacity(Put(endpoints, seed, index, endpoint)) == TotalCapacity(endpoints)
            + Places(endpoint.ring.storage)
  {
    if index < |endpoints| {
      CapacityAfter(endpoints, index, endpoints[index].(value := Some(endpoint)));
    } else {
      assert Put(endpoints, seed, index, endpoint)[..|endpoints|] == endpoints;
    }
  }

  // --- Removing capabilities --------------------------------------------------------

  function ClearedIf(slot: Slot<Capability>, gone: bool): Slot<Capability> {
    if gone && slot.value.Some? then Slot(NextGeneration(slot.generation), None) else slot
  }

  /** Exactly the capabilities for an endpoint are gone. */
  ghost predicate CapabilitiesWithout(before: CapabilityTable, after: CapabilityTable, endpoint: Handle) {
    && |after| == |before|
    && forall i :: 0 <= i < |before| ==> after[i]
                                         == ClearedIf(before[i], before[i].value.Some?
       && before[i].value.value.endpoint == endpoint)
  }

  /** Exactly the capabilities of an owner are gone. */
  ghost predicate CapabilitiesNotOf(before: CapabilityTable, after: CapabilityTable, owner: Handle) {
    && |after| == |before|
    && forall i :: 0 <= i < |before| ==> after[i]
                                         == ClearedIf(before[i], before[i].value.Some?
       && before[i].value.value.owner == owner)
  }

  lemma WithoutKeeps(endpoints: EndpointTable, before: CapabilityTable, after: CapabilityTable, endpoint: Handle)
    requires CapabilitiesOk(endpoints, before) && Numbered(before) && CapabilitiesWithout(before, after, endpoint)
             && Live(endpoints, endpoint)
    ensures CapabilitiesOk(Removed(endpoints, endpoint.index), after) && Numbered(after)
    ensures forall c :: Live(after, c) <==> Live(before, c) && At(before, c).endpoint != endpoint
    ensures forall c :: Live(after, c) ==> At(after, c) == At(before, c)
  {
    hide Removed;
    RemovedLive(endpoints, endpoint);
    forall c | Live(after, c)
      ensures Live(before, c) && At(before, c).endpoint != endpoint && At(after, c) == At(before, c)
    {
      assert after[c.index] == ClearedIf(before[c.index], before[c.index].value.Some?
             && before[c.index].value.value.endpoint == endpoint);
    }
  }

  lemma NotOfKeeps(endpoints: EndpointTable, before: CapabilityTable, after: CapabilityTable, owner: Handle)
    requires CapabilitiesOk(endpoints, before) && Numbered(before) && CapabilitiesNotOf(before, after, owner)
    ensures CapabilitiesOk(endpoints, after) && Numbered(after)
    ensures forall c :: Live(after, c) <==> Live(before, c) && At(before, c).owner != owner
    ensures forall c :: Live(after, c) ==> At(after, c) == At(before, c)
  {
    forall c | Live(after, c)
      ensures Live(before, c) && At(before, c).owner != owner && At(after, c) == At(before, c)
    {
      assert after[c.index] == ClearedIf(before[c.index], before[c.index].value.Some?
             && before[c.index].value.value.owner == owner);
    }
  }

  // --- Events -------------------------------------------------------------------

  /** Latched signals survive, except one that was consumed and those of destroyed events. */
  ghost predicate Latches(before: EventTable, after: EventTable, consumed: Option<Handle>) {
    forall e :: Live(before, e) && At(before, e).signaled && Live(after, e) && Some(e) != consumed ==>
        At(after, e).signaled
  }

  /** An endpoint's own events: the consumer's for reading, the producer's for writing. */
  predicate EventOf(endpoint: Endpoint, event: Handle, owner: Handle) {
    (event == endpoint.readEvent && owner == endpoint.consumer)
        || (event == endpoint.writeEvent && owner == endpoint.producer)
  }

  /** The events of one endpoint are gone; all others are as they were. */
  ghost predicate EventsWithout(before: EventTable, after: EventTable, endpoint: Endpoint) {
    && (forall e :: Live(after, e) <==> Live(before, e) && !EventOf(endpoint, e, At(before, e).owner))
    && (forall e :: Live(after, e) ==> At(after, e) == At(before, e))
  }

  /** The tables a removal touches. */
  datatype Snapshot = Snapshot(endpoints: EndpointTable, capabilities: CapabilityTable, events: EventTable,
                               sets: SetTable)

  class IpcRegistry {
    var endpoints: EndpointTable
    var capabilities: CapabilityTable
    var generationSeed: nat
    var capabilityGeneration: nat
    var budget: nat
    var committed: nat
    var memory: Memory
    var verdicts: seq<bool>
    ghost var sent: Log
    ghost var received: Log
    ghost var queueOwner: map<nat, Handle>

    ghost predicate Valid()
      reads this
    {
      && generationSeed != 0 && capabilityGeneration != 0 && Numbered(endpoints) && Numbered(capabilities)
      && EndpointsOk(endpoints) && CapabilitiesOk(endpoints, capabilities)
      && committed == TotalCapacity(endpoints) <= budget
      && LogsKept(endpoints, sent, received) && Paged(memory)
    }

    ghost predicate OwnsFrames()
      reads this`endpoints, this`queueOwner
    {
      FramesApart(endpoints, queueOwner)
    }

    /** Queue frames are apart, and messages come out in the order they went in. */
    ghost predicate InOrder()
      reads this`endpoints, this`queueOwner, this`memory, this`sent, this`received
    {
      OwnsFrames() && Flowing(endpoints, memory, sent, received)
    }

    constructor (generation: nat, budget: nat, verdicts: seq<bool>)
      ensures Valid() && InOrder() && endpoints == [] && capabilities == [] && queueOwner == map[]
              && this.budget == budget && this.verdicts == verdicts
    {
      generationSeed := if generation == 0 then 1 else generation;
      capabilityGeneration := NextGeneration(if generation == 0 then 1 else generation);
      endpoints, capabilities := [], [];
      this.budget, committed := budget, 0;
      sent, received, queueOwner, memory := map[], map[], map[], map[];
      this.verdicts := verdicts;
    }

    /** A queue between two services with an event for each side, in memory of its own or in frames. */
    method CreateEndpoint(producer: Handle, consumer: Handle, contractId: nat, bytes: nat, capacity: nat, epoch: nat,
                          frames: Option<seq<nat>>,
                          events: EventRegistry)
      returns (r: Result<Handle, IpcStatus>)
      requires Valid() && events.Valid()
      modifies this, events
      ensures Valid() && events.Valid()
      ensures r == Err(Malformed) <==>
                (frames.Some? && |frames.value| != capacity)
                    || ((frames.Some? ==> Agrees(old(verdicts))) && !Proper(producer, consumer, bytes, capacity, epoch))
      ensures r == Err(Full) <==>
                && (frames.Some? ==> |frames.value| == capacity && Agrees(old(verdicts)))
                && Proper(producer, consumer, bytes, capacity, epoch)
                && capacity > budget - old(committed)
      ensures r.Err? ==> r.error == Malformed || r.error == Full || r.error == Disconnected
      ensures AllAgree(old(verdicts)) ==> AllAgree(verdicts)
      ensures AllAgree(old(events.verdicts)) ==> AllAgree(events.verdicts)
      ensures AllAgree(old(verdicts)) && AllAgree(old(events.verdicts)) ==> r != Err(Disconnected)
      ensures r.Err? ==> Unmoved(old(Snap(events)), Snap(events)) && sent == old(sent) && received == old(received)
                         && queueOwner == old(queueOwner)
      ensures budget == old(budget) && capabilities == old(capabilities) && memory == old(memory)
              && (r.Err? && old(OwnsFrames()) ==> OwnsFrames())
      ensures r.Err? && old(InOrder()) ==> InOrder()
      ensures r.Ok? ==> Created(r.value, producer, consumer, contractId, bytes, capacity, epoch, frames, events)
      ensures r.Ok? ==> sent == old(sent)[r.value := []] && received == old(received)[r.value := []]
      ensures r.Ok? && old(OwnsFrames()) && Free(old(queueOwner), frames) ==>
              OwnsFrames() && queueOwner.Keys == old(queueOwner).Keys + Elements(FramesIn(frames))
      ensures r.Ok? && old(InOrder()) && Free(old(queueOwner), frames) ==> InOrder()
    {
      hide Numbered, EndpointsOk, CapabilitiesOk, LogsKept, Flowing, TotalCapacity, FramesApart, EventRegistry.Valid,
           EventsGrew, Elements, SameLive, Crowded, Added, Distinct, RingOk;
      SameSelf(Snap(events));
      var refused := Refusal(producer, consumer, bytes, capacity, epoch, frames);
      if refused.Some? {
        return Err(refused.value);
      }
      ghost var before := endpoints;
      var index := TakeSlot();
      if index.None? {
        return Err(Disconnected);
      }
      var pair := OpenEvents(consumer, producer, events);
      if pair.Err? {
        return Err(pair.error);
      }
      EmptyRingOk(capacity, frames, bytes);
      ghost var middle := endpoints;
      var endpoint := Endpoint(Handle(index.value, endpoints[index.value].generation), producer, consumer, contractId,
                               epoch, pair.value.0, pair.value.1,
                               EmptyRing(StorageFor(capacity, frames), bytes));
      r := Install(endpoint, events);
      CreatedFrom(before, middle, endpoints, r.value, endpoint);
    }

    /** The checks and the reservation for the queue, in the order of the two ways to ask. */
    method Refusal(producer: Handle, consumer: Handle, bytes: nat, capacity: nat, epoch: nat, frames: Option<seq<nat>>)
        returns (r: Option<IpcStatus>)
      modifies this`verdicts
      ensures r == Some(Malformed) <==>
                (frames.Some? && |frames.value| != capacity)
                    || ((frames.Some? ==> Agrees(old(verdicts))) && !Proper(producer, consumer, bytes, capacity, epoch))
      ensures r == Some(Full) <==>
                && (frames.Some? ==> |frames.value| == capacity && Agrees(old(verdicts)))
                && Proper(producer, consumer, bytes, capacity, epoch)
                && capacity > budget - committed
      ensures r == Some(Disconnected) ==> !Agrees(old(verdicts))
      ensures r.None? ==> Proper(producer, consumer, bytes, capacity, epoch)
                          && (frames.Some? ==> |frames.value| == capacity) && committed + capacity <= budget
      ensures r.Some? ==> r.value == Malformed || r.value == Full || r.value == Disconnected
      ensures AllAgree(old(verdicts)) ==> AllAgree(verdicts)
    {
      if frames.Some? {
        if |frames.value| != capacity {
          return Some(Malformed);
        }
        var room := Agrees(verdicts);
        verdicts := LaterVerdicts(verdicts);
        if !room {
          return Some(Disconnected);
        }
      }
      if !Proper(producer, consumer, bytes, capacity, epoch) {
        return Some(Malformed);
      }
      if capacity > SaturatingSub(budget, committed) {
        return Some(Full);
      }
      if frames.None? {
        var room := Agrees(verdicts);
        verdicts := LaterVerdicts(verdicts);
        if !room {
          return Some(Disconnected);
        }
      }
      r := None;
    }

    /** A vacant slot for an endpoint, at the end of the table if need be. */
    method TakeSlot() returns (index: Option<nat>)
      requires Valid()
      modifies this`endpoints, this`verdicts
      ensures Valid() && SameLive(old(endpoints), endpoints) && verdicts == VerdictsLeft(old(endpoints), old(verdicts))
      ensures index.Some? <==> HasRoom(old(endpoints), old(verdicts))
      ensures index.Some? ==> index.value < |endpoints| && endpoints[index.value].value.None?
      ensures (old(OwnsFrames()) ==> OwnsFrames()) && (old(InOrder()) ==> InOrder())
    {
      hide Numbered, EndpointsOk, CapabilitiesOk, LogsKept, Flowing, TotalCapacity, FramesApart, Extended;
      index, verdicts := FindRoom(endpoints, verdicts);
      if index.Some? {
        TableExtended(endpoints, memory, capabilities, sent, received, queueOwner, generationSeed, index.value);
        endpoints := Extended(endpoints, generationSeed, index.value);
      }
    }

    /** Put an endpoint with an empty ring into its vacant slot. */
    method Install(endpoint: Endpoint, ghost events: EventRegistry) returns (r: Result<Handle, IpcStatus>)
      requires Valid() && EndpointOk(endpoint, endpoint.handle) && endpoint.ring.length == 0
               && committed + Places(endpoint.ring.storage) <= budget
      requires endpoint.handle.index < |endpoints| && endpoints[endpoint.handle.index].value.None?
               && endpoint.handle == HandleAt(endpoints, endpoint.handle.index)
      modifies this`endpoints, this`committed, this`sent, this`received, this`queueOwner
      ensures Valid() && r == Result.Ok(endpoint.handle) && Added(old(endpoints), endpoints, endpoint.handle, endpoint)
      ensures sent == old(sent)[endpoint.handle := []] && received == old(received)[endpoint.handle := []]
      ensures old(OwnsFrames()) && Distinct(endpoint.Frames())
              && Elements(endpoint.Frames()) !! old(queueOwner).Keys ==>
                OwnsFrames() && queueOwner.Keys == old(queueOwner).Keys + Elements(endpoint.Frames())
                    && (old(InOrder()) ==> InOrder())
    {
      hide Numbered, EndpointsOk, CapabilitiesOk, LogsKept, Flowing, TotalCapacity, FramesApart, Put, Elements;
      var index := endpoint.handle.index;
      EndpointAdded(endpoints, capabilities, sent, received, generationSeed, index, endpoint);
      if OwnsFrames() && Distinct(endpoint.Frames()) && Elements(endpoint.Frames()) !! queueOwner.Keys {
        FramesAdded(endpoints, queueOwner, generationSeed, index, endpoint);
        queueOwner := Assigned(queueOwner, endpoint.Frames(), endpoint.handle);
      }
      FlowAdded(endpoints, memory, sent, received, generationSeed, index, endpoint);
      endpoints := Put(endpoints, generationSeed, index, endpoint);
      committed := committed + Places(endpoint.ring.storage);
      sent, received := sent[endpoint.handle := []], received[endpoint.handle := []];
      r := Result.Ok(endpoint.handle);
    }

    /** A new endpoint with two new events; everything else is as it was. */
    twostate predicate Created(handle: Handle, producer: Handle, consumer: Handle, contractId: nat, bytes: nat,
                               capacity: nat, epoch: nat,
                               frames: Option<seq<nat>>, events: EventRegistry)
      reads this, events
    {
      && Live(endpoints, handle) && Added(old(endpoints), endpoints, handle, At(endpoints, handle))
      && var endpoint := At(endpoints, handle);
         && endpoint.producer == producer && endpoint.consumer == consumer && endpoint.contractId == contractId
         && endpoint.epoch == epoch
         && endpoint.handle == handle && Places(endpoint.ring.storage) == capacity && endpoint.ring.bytes == bytes
         && endpoint.ring.length == 0
         && endpoint.Frames() == FramesIn(frames)
         && EventsGrew(old(events.events), events.events, endpoint.readEvent, consumer, endpoint.writeEvent, producer)
         && events.sets == old(events.sets)
    }

    /** Give a service a capability for its side of an endpoint. */
    method Grant(owner: Handle, endpoint: Handle, rights: Rights) returns (r: Result<Handle, IpcStatus>)
      requires Valid()
      modifies this`capabilities, this`verdicts
      ensures Valid()
      ensures r.Ok? <==> Live(endpoints, endpoint) && Side(At(endpoints, endpoint), rights) == owner
                         && HasRoom(old(capabilities), old(verdicts))
      ensures r.Err? ==> capabilities == old(capabilities)
      ensures r.Err? ==> r.error == if !Live(endpoints, endpoint) then IpcStatus.Stale
                                    else if Side(At(endpoints, endpoint), rights) != owner then
                                        IpcStatus.Unauthorized else Disconnected
      ensures AllAgree(old(verdicts)) ==> AllAgree(verdicts)
      ensures r.Ok? ==> Added(old(capabilities), capabilities, r.value,
                              Capability(r.value, owner, endpoint, rights, At(endpoints, endpoint).epoch))
    {
      hide EndpointsOk, TotalCapacity;
      if !Live(endpoints, endpoint) {
        return Err(IpcStatus.Stale);
      }
      var record := At(endpoints, endpoint);
      if Side(record, rights) != owner {
        return Err(IpcStatus.Unauthorized);
      }
      var index;
      index, verdicts := FindRoom(capabilities, verdicts);
      if index.None? {
        return Err(Disconnected);
      }
      var handle := Handle(index.value, if index.value == |capabilities| then
          capabilityGeneration else capabilities[index.value].generation);
      var capability := Capability(handle, owner, endpoint, rights, record.epoch);
      PutLive(capabilities, capabilityGeneration, index.value, capability);
      capabilities := Put(capabilities, capabilityGeneration, index.value, capability);
      r := Result.Ok(handle);
    }

    /** The first endpoint between two services for a contract. */
    method FindEndpoint(producer: Handle, consumer: Handle, contractId: nat) returns (r: Result<Handle, IpcStatus>)
      requires Valid()
      ensures r.Ok? ==> FirstServing(endpoints, r.value, producer, consumer, contractId)
      ensures r == Err(Malformed) <==> !producer.Valid() || !consumer.Valid() || contractId == 0
      ensures r.Err? ==> r == Err(Malformed) || (r == Err(Disconnected) && forall h :: Live(endpoints, h) ==>
              !Serves(At(endpoints, h), producer, consumer, contractId))
    {
      hide TotalCapacity, CapabilitiesOk;
      if !producer.Valid() || !consumer.Valid() || contractId == 0 {
        return Err(Malformed);
      }
      for i := 0 to |endpoints|
        invariant forall j :: 0 <= j < i && endpoints[j].value.Some? ==>
                  !Serves(endpoints[j].value.value, producer, consumer, contractId)
      {
        if endpoints[i].value.Some? && Serves(endpoints[i].value.value, producer, consumer, contractId) {
          assert Live(endpoints, HandleAt(endpoints, i));
          return Result.Ok(endpoints[i].value.value.handle);
        }
      }
      r := Err(Disconnected);
    }

    /** The first capability of a service for an endpoint. */
    method CapabilityFor(owner: Handle, endpoint: Handle, rights: Rights) returns (r: Result<Handle, IpcStatus>)
      requires Valid()
      ensures r.Ok? ==> Live(capabilities, r.value) && Allows(At(capabilities, r.value), owner, endpoint, rights)
      ensures r.Ok? ==> forall c :: Live(capabilities, c) && c.index < r.value.index ==>
              !Allows(At(capabilities, c), owner, endpoint, rights)
      ensures r.Err? ==> forall c :: Live(capabilities, c) ==> !Allows(At(capabilities, c), owner, endpoint, rights)
    {
      hide TotalCapacity, EndpointsOk;
      for i := 0 to |capabilities|
        invariant forall j :: 0 <= j < i && capabilities[j].value.Some? ==>
                  !Allows(capabilities[j].value.value, owner, endpoint, rights)
      {
        if capabilities[i].value.Some? && Allows(capabilities[i].value.value, owner, endpoint, rights) {
          assert Live(capabilities, HandleAt(capabilities, i));
          return Result.Ok(capabilities[i].value.value.handle);
        }
      }
      r := Err(IpcStatus.Unauthorized);
    }

    /** Queue a message and signal the reader. */
    method Send(caller: Handle, capability: Handle, bytes: Message, events: EventRegistry) returns (status: IpcStatus)
      requires Valid() && events.Valid()
      modifies this`endpoints, this`sent, this`memory, events`events, events`woken
      ensures Valid() && events.Valid()
      ensures status == Done || status == Full <==>
              Addressed(old(endpoints), capabilities, caller, capability, SendRight, |bytes|)
      ensures status == Full ==> RingFull(old(endpoints), capabilities, capability)
      ensures status == IpcStatus.Stale <==> !Live(capabilities, capability)
      ensures status == IpcStatus.Unauthorized <==>
              Live(capabilities, capability) && (At(capabilities, capability).owner != caller
              || At(capabilities, capability).rights != SendRight)
      ensures status in {Done, Full, IpcStatus.Stale, IpcStatus.Unauthorized, Malformed}
      ensures status == Done ==> !RingFull(old(endpoints), capabilities, capability)
      ensures status != Done ==> endpoints == old(endpoints) && sent == old(sent) && memory == old(memory)
                                 && events.events == old(events.events)
      ensures status == Done ==> Sent(capability, bytes)
                                 && Rung(old(events.events), events.events,
                                         At(old(endpoints), At(capabilities, capability).endpoint).readEvent)
      ensures (old(OwnsFrames()) ==> OwnsFrames()) && (old(InOrder()) ==> InOrder())
    {
      hide Numbered, LogsKept, Flowing, TotalCapacity, FramesApart, EventRegistry.Valid, Contents, Pushed, MemoryPushed,
           RingOk;
      if !Live(capabilities, capability) {
        return IpcStatus.Stale;
      }
      var grant := At(capabilities, capability);
      if grant.owner != caller || grant.rights != SendRight {
        return IpcStatus.Unauthorized;
      }
      var endpoint := At(endpoints, grant.endpoint);
      if |bytes| != endpoint.ring.bytes {
        return Malformed;
      }
      if endpoint.ring.length >= Places(endpoint.ring.storage) {
        RingBounds(endpoint.ring);
        return Full;
      }
      PushKeeps(endpoints, memory, capabilities, sent, received, queueOwner, grant.endpoint, bytes);
      endpoints := Replaced(endpoints, grant.endpoint, endpoint.(ring := Pushed(endpoint.ring, memory, bytes)));
      memory := MemoryPushed(endpoint.ring, memory, bytes);
      sent := sent[grant.endpoint := sent[grant.endpoint] + [bytes]];
      var _ := events.SignalIrq(endpoint.readEvent);
      status := Done;
    }

    /** Hand out the oldest message and signal the writer. */
    method Receive(caller: Handle, capability: Handle, length: nat, events: EventRegistry)
        returns (status: IpcStatus, bytes: Message)
      requires Valid() && events.Valid()
      modifies this`endpoints, this`received, events`events, events`woken
      ensures Valid() && events.Valid()
      ensures status == Done || status == Empty <==>
              Addressed(old(endpoints), capabilities, caller, capability, ReceiveRight, length)
      ensures status == Empty ==> RingEmpty(old(endpoints), capabilities, capability)
      ensures status == IpcStatus.Stale <==> !Live(capabilities, capability)
      ensures status == IpcStatus.Unauthorized <==>
              Live(capabilities, capability) && (At(capabilities, capability).owner != caller
              || At(capabilities, capability).rights != ReceiveRight)
      ensures status in {Done, Empty, IpcStatus.Stale, IpcStatus.Unauthorized, Malformed}
      ensures status == Done ==> !RingEmpty(old(endpoints), capabilities, capability)
      ensures status != Done ==> endpoints == old(endpoints) && received == old(received)
                                 && events.events == old(events.events)
      ensures status == Done ==> Got(capability, bytes)
                                 && Rung(old(events.events), events.events,
                                         At(old(endpoints), At(capabilities, capability).endpoint).writeEvent)
      ensures (old(OwnsFrames()) ==> OwnsFrames()) && (old(InOrder()) ==> InOrder())
    {
      hide Numbered, LogsKept, Flowing, TotalCapacity, FramesApart, EventRegistry.Valid, Contents, Popped, RingOk;
      bytes := [];
      if !Live(capabilities, capability) {
        return IpcStatus.Stale, bytes;
      }
      var grant := At(capabilities, capability);
      if grant.owner != caller || grant.rights != ReceiveRight {
        return IpcStatus.Unauthorized, bytes;
      }
      var endpoint := At(endpoints, grant.endpoint);
      if length != endpoint.ring.bytes {
        return Malformed, bytes;
      }
      if endpoint.ring.length == 0 {
        return Empty, bytes;
      }
      PopKeeps(endpoints, memory, capabilities, sent, received, queueOwner, grant.endpoint);
      bytes := First(endpoint.ring, memory);
      endpoints := Replaced(endpoints, grant.endpoint, endpoint.(ring := Popped(endpoint.ring)));
      received := received[grant.endpoint := received[grant.endpoint] + [bytes]];
      var _ := events.SignalIrq(endpoint.writeEvent);
      status := Done;
    }

    /** The message at the head was handed out, which is the next one in the order of sending; nothing else changed. */
    twostate predicate Got(capability: Handle, bytes: Message)
      reads this
    {
      && Live(capabilities, capability)
      && var endpoint := At(capabilities, capability).endpoint;
         && Live(old(endpoints), endpoint) && Live(endpoints, endpoint) && endpoint in old(received)
         && endpoint in received && endpoint in sent
         && received == old(received)[endpoint := old(received)[endpoint] + [bytes]]
         && (old(InOrder()) ==> received[endpoint] <= sent[endpoint])
         && var ring := At(old(endpoints), endpoint).ring;
            && RingOk(ring) && ring.length > 0 && Paged(memory) && bytes == First(ring, memory)
            && endpoints == Replaced(old(endpoints), endpoint, At(old(endpoints), endpoint).(ring := Popped(ring)))
    }

    /**
     Take an endpoint down with its events and every capability for it; its queue frames go
     back to the caller. Without `room` for the list of them the registry is left broken.
     */
    method DestroyEndpoint(handle: Handle, events: EventRegistry, room: bool) returns (r: Result<seq<nat>, IpcStatus>)
      requires Valid() && events.Valid()
      modifies this`endpoints, this`capabilities, this`committed, this`queueOwner, events
      ensures events.Valid() && (Valid() <==> !Cramped(old(endpoints), handle, room))
      ensures r.Ok? <==> Live(old(endpoints), handle) && !Cramped(old(endpoints), handle, room)
      ensures r.Err? ==> r.error == if Live(old(endpoints), handle) then Disconnected else IpcStatus.Stale
      ensures r.Err? ==> endpoints == old(endpoints) && capabilities == old(capabilities)
                         && queueOwner == old(queueOwner)
      ensures r == Err(IpcStatus.Stale) ==> unchanged(this) && unchanged(events)
      ensures r == Err(Disconnected) ==>
                && committed + Places(At(old(endpoints), handle).ring.storage) == old(committed)
                && EventsWithout(old(events.events), events.events, At(old(endpoints), handle))
      ensures r.Ok? ==> r.value == At(old(endpoints), handle).Frames()
                        && Destroyed(old(Snap(events)), Snap(events), handle)
      ensures r.Ok? && old(OwnsFrames()) ==>
                OwnsFrames() && queueOwner.Keys == old(queueOwner).Keys - Elements(r.value) && Distinct(r.value)
                    && Elements(r.value) <= old(queueOwner).Keys
      ensures r.Ok? && old(InOrder()) ==> InOrder()
    {
      hide Numbered, EndpointsOk, CapabilitiesOk, LogsKept, Flowing, TotalCapacity, FramesApart, EventRegistry.Valid,
           Removed, Elements, RingOk;
      if !Live(endpoints, handle) {
        return Err(IpcStatus.Stale);
      }
      var endpoint := At(endpoints, handle);
      EndpointRemoved(endpoints, memory, sent, received, handle);
      var capacity := Places(endpoint.ring.storage);
      committed := SaturatingSub(committed, capacity);
      DestroyEvents(endpoint, events);
      if endpoint.ring.storage.Frames? && !room {
        return Err(Disconnected);
      }
      ClearCapabilities(handle);
      WithoutKeeps(endpoints, old(capabilities), capabilities, handle);
      if OwnsFrames() {
        FramesRemoved(endpoints, queueOwner, handle);
        queueOwner := queueOwner - Elements(endpoint.Frames());
      }
      endpoints := Removed(endpoints, handle.index);
      r := Result.Ok(endpoint.Frames());
    }

    /** The queue frames go back to the pool as well. */
    method DestroyEndpointWithPool(handle: Handle, events: EventRegistry, pool: FramePool)
        returns (r: Result<Unit, IpcStatus>)
      requires Valid() && events.Valid() && pool.Valid()
      modifies this`endpoints, this`capabilities, this`committed, this`queueOwner, events, pool
      ensures Valid() && events.Valid() && pool.Valid() && pool.Universe() == old(pool.Universe())
      ensures Live(old(endpoints), handle) ==> Destroyed(old(Snap(events)), Snap(events), handle)
      ensures !Live(old(endpoints), handle) ==> unchanged(this) && unchanged(events) && unchanged(pool)
      ensures old(QueuesLive(pool)) ==> QueuesLive(pool) && Returned(pool)
      ensures old(InOrder()) ==> InOrder()
    {
      hide Numbered, EndpointsOk, CapabilitiesOk, LogsKept, Flowing, TotalCapacity, FramesApart, EventRegistry.Valid,
           FramePool.Counted, Elements, Distinct;
      var frames := DestroyEndpoint(handle, events, true);
      if frames.Err? {
        return Err(frames.error);
      }
      var released := ReleaseAll(pool, frames.value);
      r := if released.Err? then Err(Disconnected) else Result.Ok(Unit.Unit);
    }

    /** Every queue frame is live in the pool. */
    ghost predicate QueuesLive(pool: FramePool)
      reads this, pool
    {
      OwnsFrames() && queueOwner.Keys <= pool.live.Keys
    }

    /** Exactly the queue frames that no endpoint has any more went back to the pool. */
    twostate predicate Returned(pool: FramePool)
      reads this, pool
    {
      && queueOwner.Keys <= old(queueOwner).Keys
      && pool.live == old(pool.live) - (old(queueOwner).Keys - queueOwner.Keys)
    }

    /** Remove a service: its endpoints with their queues, its capabilities, events and sets. */
    method DestroyService(service: Handle, events: EventRegistry, pool: FramePool)
      requires Valid() && events.Valid() && pool.Valid()
      modifies this`endpoints, this`capabilities, this`committed, this`queueOwner, events, pool
      ensures Valid() && events.Valid() && pool.Valid() && pool.Universe() == old(pool.Universe())
      ensures ServiceGone(old(Snap(events)), Snap(events), service)
      ensures old(QueuesLive(pool)) ==> QueuesLive(pool) && Returned(pool)
      ensures old(InOrder()) ==> InOrder()
    {
      hide Numbered, EndpointsOk, CapabilitiesOk, LogsKept, Flowing, TotalCapacity, FramesApart, EventRegistry.Valid,
           FramePool.Valid, Doomed;
      DestroyEndpointsOf(service, events, pool);
      ghost var before := capabilities;
      ClearOwned(service);
      NotOfKeeps(endpoints, before, capabilities, service);
      events.DestroyService(service);
    }

    method DestroyEndpointsOf(service: Handle, events: EventRegistry, pool: FramePool)
      requires Valid() && events.Valid() && pool.Valid()
      modifies this`endpoints, this`capabilities, this`committed, this`queueOwner, events, pool
      ensures Valid() && events.Valid() && pool.Valid() && pool.Universe() == old(pool.Universe())
      ensures Swept(old(Snap(events)), Snap(events), service, |endpoints|) && |endpoints| == |old(endpoints)|
      ensures old(QueuesLive(pool)) ==> QueuesLive(pool) && Returned(pool)
      ensures old(InOrder()) ==> InOrder()
    {
      hide Numbered, EndpointsOk, CapabilitiesOk, LogsKept, Flowing, TotalCapacity, FramesApart, EventRegistry.Valid,
           FramePool.Valid, Swept, Destroyed;
      NothingSwept(Snap(events), service);
      for i := 0 to |endpoints|
        invariant |endpoints| == |old(endpoints)|
        invariant Valid() && events.Valid() && pool.Valid() && pool.Universe() == old(pool.Universe())
        invariant Swept(old(Snap(events)), Snap(events), service, i)
        invariant old(QueuesLive(pool)) ==> QueuesLive(pool) && Returned(pool)
        invariant old(InOrder()) ==> InOrder()
      {
        ghost var before := Snap(events);
        if endpoints[i].value.Some? && Involves(endpoints[i].value.value, service) {
          var handle := HandleAt(endpoints, i);
          var _ := DestroyEndpointWithPool(handle, events, pool);
          SweptOne(old(Snap(events)), before, Snap(events), service, i);
        } else {
          SweptSame(old(Snap(events)), before, service, i);
        }
      }
    }

    method ClearCapabilities(handle: Handle)
      modifies this`capabilities
      ensures CapabilitiesWithout(old(capabilities), capabilities, handle)
    {
      for i := 0 to |capabilities|
        invariant |capabilities| == |old(capabilities)|
        invariant forall j :: 0 <= j < i ==> capabilities[j]
                                             == ClearedIf(old(capabilities)[j], old(capabilities)[j].value.Some?
                  && old(capabilities)[j].value.value.endpoint == handle)
        invariant forall j :: i <= j < |capabilities| ==> capabilities[j] == old(capabilities)[j]
      {
        if capabilities[i].value.Some? && capabilities[i].value.value.endpoint == handle {
          capabilities := Removed(capabilities, i);
        }
      }
    }

    method ClearOwned(owner: Handle)
      modifies this`capabilities
      ensures CapabilitiesNotOf(old(capabilities), capabilities, owner)
    {
      for i := 0 to |capabilities|
        invariant |capabilities| == |old(capabilities)|
        invariant forall j :: 0 <= j < i ==> capabilities[j]
                                             == ClearedIf(old(capabilities)[j], old(capabilities)[j].value.Some?
                  && old(capabilities)[j].value.value.owner == owner)
        invariant forall j :: i <= j < |capabilities| ==> capabilities[j] == old(capabilities)[j]
      {
        if capabilities[i].value.Some? && capabilities[i].value.value.owner == owner {
          capabilities := Removed(capabilities, i);
        }
      }
    }

    ghost function Snap(events: EventRegistry): Snapshot
      reads this, events
    {
      Snapshot(endpoints, capabilities, events.events, events.sets)
    }

    /** The message is the newest one of the endpoint; nothing else changed. */
    twostate predicate Sent(capability: Handle, bytes: Message)
      reads this
    {
      && Live(capabilities, capability)
      && var endpoint := At(capabilities, capability).endpoint;
         && Live(old(endpoints), endpoint) && Live(endpoints, endpoint) && endpoint in old(sent) && endpoint in sent
         && endpoint in received
         && sent == old(sent)[endpoint := old(sent)[endpoint] + [bytes]]
         && var ring := At(old(endpoints), endpoint).ring;
            && Pushable(ring, old(memory), bytes) && memory == MemoryPushed(ring, old(memory), bytes)
            && endpoints == Replaced(old(endpoints), endpoint,
                                     At(old(endpoints), endpoint).(ring := Pushed(ring, old(memory), bytes)))
    }
  }

  /** Two new events, not signaled, and nothing else. */
  ghost predicate EventsGrew(before: EventTable, after: EventTable, first: Handle, firstOwner: Handle, second: Handle,
                             secondOwner: Handle) {
    && first != second && !Live(before, first) && !Live(before, second)
    && Live(after, first) && At(after, first) == Event(firstOwner, false)
    && Live(after, second) && At(after, second) == Event(secondOwner, false)
    && forall e :: e != first && e != second ==>
       (Live(after, e) <==> Live(before, e)) && (Live(after, e) ==> At(after, e) == At(before, e))
  }

  /** An event for each side, or none. */
  method OpenEvents(first: Handle, second: Handle, events: EventRegistry)
      returns (r: Result<(Handle, Handle), IpcStatus>)
    requires events.Valid() && first.Valid() && second.Valid()
    modifies events
    ensures events.Valid() && events.generationSeed == old(events.generationSeed) && events.sets == old(events.sets)
    ensures r.Ok? ==> EventsGrew(old(events.events), events.events, r.value.0, first, r.value.1, second)
    ensures r.Err? ==> r.error == Disconnected && SameLive(old(events.events), events.events)
    ensures AllAgree(old(events.verdicts)) ==> AllAgree(events.verdicts) && r.Ok?
  {
    hide Removed, Consistent;
    var firstEvent := events.CreateEvent(first);
    if firstEvent.Err? {
      return Err(Disconnected);
    }
    ghost var middle := events.events;
    var secondEvent := events.CreateEvent(second);
    if secondEvent.Err? {
      NothingSeveredBy(old(events.events), old(events.sets), firstEvent.value);
      var _ := events.DestroyEvent(first, firstEvent.value);
      RemovedLive(middle, firstEvent.value);
      return Err(if secondEvent.error == EventError.Unauthorized then IpcStatus.Unauthorized else Disconnected);
    }
    r := Result.Ok((firstEvent.value, secondEvent.value));
  }

  lemma NothingSeveredBy(events: EventTable, sets: SetTable, event: Handle)
    requires Consistent(events, sets) && !Live(events, event)
    ensures forall after :: AllSevered(sets, after, event) ==> after == sets
  {
    forall after | AllSevered(sets, after, event)
      ensures after == sets
    {
      NothingSevered(events, sets, after, event);
    }
  }

  /** Destroy both events of an endpoint, where they are still its own. */
  method DestroyEvents(endpoint: Endpoint, events: EventRegistry)
    requires events.Valid()
    modifies events
    ensures events.Valid() && events.generationSeed == old(events.generationSeed)
    ensures EventsWithout(old(events.events), events.events, endpoint) && SameSetOwners(old(events.sets), events.sets)
  {
    hide EventRegistry.Valid, Removed;
    ghost var before := events.events;
    var first := events.DestroyEvent(endpoint.consumer, endpoint.readEvent);
    if first.Ok? {
      RemovedLive(before, endpoint.readEvent);
    }
    ghost var middle := events.events;
    var second := events.DestroyEvent(endpoint.producer, endpoint.writeEvent);
    if second.Ok? {
      RemovedLive(middle, endpoint.writeEvent);
    }
  }

  predicate Serves(endpoint: Endpoint, producer: Handle, consumer: Handle, contractId: nat) {
    endpoint.producer == producer && endpoint.consumer == consumer && endpoint.contractId == contractId
  }

  /** The endpoint in the lowest slot that serves. */
  ghost predicate FirstServing(endpoints: EndpointTable, handle: Handle, producer: Handle, consumer: Handle,
                               contractId: nat) {
    && Live(endpoints, handle) && Serves(At(endpoints, handle), producer, consumer, contractId)
    && forall h :: Live(endpoints, h) && h.index < handle.index ==>
       !Serves(At(endpoints, h), producer, consumer, contractId)
  }

  predicate Allows(capability: Capability, owner: Handle, endpoint: Handle, rights: Rights) {
    capability.owner == owner && capability.endpoint == endpoint && capability.rights == rights
  }

  predicate Involves(endpoint: Endpoint, service: Handle) {
    endpoint.producer == service || endpoint.consumer == service
  }

  /** Of the slots below `count`, exactly the endpoints of a service are gone. */
  ghost predicate EndpointsKept(before: EndpointTable, after: EndpointTable, service: Handle, count: nat) {
    && (forall h :: Live(after, h) <==> Live(before, h) && !(h.index < count && Involves(At(before, h), service)))
    && (forall h :: Live(after, h) ==> At(after, h) == At(before, h))
  }

  predicate CapabilityKept(endpoints: EndpointTable, capability: Capability, service: Handle, count: nat) {
    Live(endpoints, capability.endpoint) ==>
        !(capability.endpoint.index < count && Involves(At(endpoints, capability.endpoint), service))
  }

  /** The event belongs to one of the endpoints of a service below `count`. */
  ghost predicate Doomed(endpoints: EndpointTable, event: Handle, owner: Handle, service: Handle, count: nat) {
    exists h :: Live(endpoints, h) && h.index < count && Involves(At(endpoints, h), service)
                && EventOf(At(endpoints, h), event, owner)
  }

  ghost predicate CapabilitiesKept(before: Snapshot, after: Snapshot, service: Handle, count: nat) {
    && (forall c :: Live(after.capabilities, c) <==>
       Live(before.capabilities, c) && CapabilityKept(before.endpoints, At(before.capabilities, c), service, count))
    && (forall c :: Live(after.capabilities, c) ==> At(after.capabilities, c) == At(before.capabilities, c))
  }

  ghost predicate EventsKept(before: Snapshot, after: Snapshot, service: Handle, count: nat) {
    && (forall e :: Live(after.events, e) <==>
       Live(before.events, e) && !Doomed(before.endpoints, e, At(before.events, e).owner, service, count))
    && (forall e :: Live(after.events, e) ==> At(after.events, e) == At(before.events, e))
  }

  /** The endpoints of a service below `count` are gone, with their capabilities and events. */
  ghost predicate Swept(before: Snapshot, after: Snapshot, service: Handle, count: nat) {
    && EndpointsKept(before.endpoints, after.endpoints, service, count)
    && CapabilitiesKept(before, after, service, count)
    && EventsKept(before, after, service, count) && SameSetOwners(before.sets, after.sets)
  }

  ghost predicate SameSetOwners(before: SetTable, after: SetTable) {
    forall h :: (Live(after, h) <==> Live(before, h)) && (Live(after, h) ==> At(after, h).owner == At(before, h).owner)
  }

  /** Exactly one endpoint, its events and its capabilities are gone. */
  ghost predicate Destroyed(before: Snapshot, after: Snapshot, handle: Handle) {
    && Live(before.endpoints, handle) && !Live(after.endpoints, handle) && |after.endpoints| == |before.endpoints|
    && (forall h :: h != handle ==> (Live(after.endpoints, h) <==> Live(before.endpoints, h))
                                    && (Live(after.endpoints, h) ==> At(after.endpoints, h) == At(before.endpoints, h)))
    && (forall c :: Live(after.capabilities, c) <==>
       Live(before.capabilities, c) && At(before.capabilities, c).endpoint != handle)
    && (forall c :: Live(after.capabilities, c) ==> At(after.capabilities, c) == At(before.capabilities, c))
    && EventsWithout(before.events, after.events, At(before.endpoints, handle))
    && SameSetOwners(before.sets, after.sets)
  }

  /**
   A service has no endpoint, capability, event or set left, and what is gone was its own or
   an endpoint's it took part in.
   */
  ghost predicate ServiceGone(before: Snapshot, after: Snapshot, service: Handle) {
    && EndpointsKept(before.endpoints, after.endpoints, service, |before.endpoints|)
    && (forall c :: Live(after.capabilities, c) <==>
          Live(before.capabilities, c) && At(before.capabilities, c).owner != service
              && CapabilityKept(before.endpoints, At(before.capabilities, c), service, |before.endpoints|))
    && (forall c :: Live(after.capabilities, c) ==> At(after.capabilities, c) == At(before.capabilities, c))
    && (forall e :: Live(after.events, e) <==>
          Live(before.events, e) && At(before.events, e).owner != service
              && !Doomed(before.endpoints, e, At(before.events, e).owner, service, |before.endpoints|))
    && (forall e :: Live(after.events, e) ==> At(after.events, e) == At(before.events, e))
    && (forall h :: Live(after.sets, h) <==> Live(before.sets, h) && At(before.sets, h).owner != service)
    && (forall h :: Live(after.sets, h) ==> At(after.sets, h).owner == At(before.sets, h).owner)
  }

  lemma NothingSwept(snapshot: Snapshot, service: Handle)
    ensures Swept(snapshot, snapshot, service, 0)
  {
  }

  lemma SweptSame(before: Snapshot, after: Snapshot, service: Handle, i: nat)
    requires Swept(before, after, service, i) && i < |after.endpoints| == |before.endpoints|
    requires after.endpoints[i].value.Some? ==> !Involves(after.endpoints[i].value.value, service)
    ensures Swept(before, after, service, i + 1)
  {
    forall h | Live(before.endpoints, h) && h.index == i
      ensures !Involves(At(before.endpoints, h), service)
    {
      assert Live(after.endpoints, h);
    }
    forall e, owner
      ensures Doomed(before.endpoints, e, owner, service, i + 1) <==> Doomed(before.endpoints, e, owner, service, i)
    {
      DoomedSame(before.endpoints, e, owner, service, i);
    }
  }

  lemma DoomedSame(endpoints: EndpointTable, event: Handle, owner: Handle, service: Handle, i: nat)
    requires forall h :: Live(endpoints, h) && h.index == i ==> !Involves(At(endpoints, h), service)
    ensures Doomed(endpoints, event, owner, service, i + 1) <==> Doomed(endpoints, event, owner, service, i)
  {
  }

  lemma DoomedMore(endpoints: EndpointTable, event: Handle, owner: Handle, service: Handle, handle: Handle)
    requires Live(endpoints, handle) && Involves(At(endpoints, handle), service)
    ensures Doomed(endpoints, event, owner, service, handle.index + 1) <==>
            Doomed(endpoints, event, owner, service, handle.index) || EventOf(At(endpoints, handle), event, owner)
  {
    if EventOf(At(endpoints, handle), event, owner) {
      assert Live(endpoints, handle);
    }
  }

  lemma SweptOne(before: Snapshot, middle: Snapshot, after: Snapshot, service: Handle, i: nat)
    requires Swept(before, middle, service, i) && i < |middle.endpoints| && middle.endpoints[i].value.Some?
    requires Involves(middle.endpoints[i].value.value, service)
             && Destroyed(middle, after, HandleAt(middle.endpoints, i))
    ensures |after.endpoints| == |middle.endpoints| && Swept(before, after, service, i + 1)
  {
    var handle := HandleAt(middle.endpoints, i);
    assert Live(before.endpoints, handle) && At(before.endpoints, handle) == At(middle.endpoints, handle);
    forall e, owner
      ensures Doomed(before.endpoints, e, owner, service, i + 1) <==>
              Doomed(before.endpoints, e, owner, service, i) || EventOf(At(before.endpoints, handle), e, owner)
    {
      DoomedMore(before.endpoints, e, owner, service, handle);
    }
    forall h: Handle | h.index == i && Live(before.endpoints, h)
      ensures h == handle
    {
    }
  }

  predicate Proper(producer: Handle, consumer: Handle, bytes: nat, capacity: nat, epoch: nat) {
    && producer.Valid() && consumer.Valid() && producer != consumer
    && 0 < bytes <= IPC_PAGE_BYTES && 0 < capacity <= MAX_QUEUE && epoch != 0
  }

  function StorageFor(capacity: nat, frames: Option<seq<nat>>): Storage {
    if frames.Some? then Frames(frames.value) else Heap(seq(capacity, _ => ZeroPage()))
  }

  function FramesIn(frames: Option<seq<nat>>): seq<nat> {
    if frames.Some? then frames.value else []
  }

  /** Distinct frames that no queue is in. */
  ghost predicate Free(queueOwner: map<nat, Handle>, frames: Option<seq<nat>>) {
    Distinct(FramesIn(frames)) && Elements(FramesIn(frames)) !! queueOwner.Keys
  }

  function EmptyRing(storage: Storage, bytes: nat): Ring {
    Ring(storage, 0, 0, 0, bytes)
  }

  lemma EmptyRingOk(capacity: nat, frames: Option<seq<nat>>, bytes: nat)
    requires 0 < capacity && 0 < bytes <= IPC_PAGE_BYTES && (frames.Some? ==> |frames.value| == capacity)
    ensures RingOk(EmptyRing(StorageFor(capacity, frames), bytes)) && Places(StorageFor(capacity, frames)) == capacity
  {
  }

  /** The list of an endpoint's frames cannot be reserved. */
  predicate Cramped(endpoints: EndpointTable, handle: Handle, room: bool) {
    Live(endpoints, handle) && At(endpoints, handle).ring.storage.Frames? && !room
  }

  /** The same endpoints, capabilities, events and sets. */
  ghost predicate Unmoved(before: Snapshot, after: Snapshot) {
    && SameLive(before.endpoints, after.endpoints) && after.capabilities == before.capabilities
    && SameLive(before.events, after.events)
    && after.sets == before.sets
  }

  lemma SameSelf(snapshot: Snapshot)
    ensures Unmoved(snapshot, snapshot)
  {
  }

  /** A vacant slot at the end changes nothing. */
  lemma {:induction false} TableExtended(endpoints: EndpointTable, memory: Memory, capabilities: CapabilityTable,
                                         sent: Log, received: Log,
                                         queueOwner: map<nat, Handle>, seed: nat, index: nat)
    requires Numbered(endpoints) && seed != 0 && EndpointsOk(endpoints) && CapabilitiesOk(endpoints, capabilities)
             && LogsKept(endpoints, sent, received)
    requires index <= |endpoints| && (index < |endpoints| ==> endpoints[index].value.None?)
    ensures var after := Extended(endpoints, seed, index);
            && index < |after| && after[index].value.None? && SameLive(endpoints, after)
            && Numbered(after) && EndpointsOk(after) && CapabilitiesOk(after, capabilities)
            && LogsKept(after, sent, received)
            && TotalCapacity(after) == TotalCapacity(endpoints)
            && (FramesApart(endpoints, queueOwner) ==> FramesApart(after, queueOwner))
            && (Flowing(endpoints, memory, sent, received) ==> Flowing(after, memory, sent, received))
  {
    hide Extended, Contents, RingOk, EndpointOk, Grants, FramesApart, Flowing, TotalCapacity, CapabilitiesOk;
    var after := Extended(endpoints, seed, index);
    ExtendedSlots(endpoints, seed, index);
    GrantsSame(endpoints, after, capabilities);
    FramesSame(endpoints, after, queueOwner);
    FlowSame(endpoints, after, memory, sent, received);
  }

  lemma FramesSame(endpoints: EndpointTable, after: EndpointTable, queueOwner: map<nat, Handle>)
    requires SameLive(endpoints, after)
    ensures FramesApart(endpoints, queueOwner) ==> FramesApart(after, queueOwner)
  {
    hide Distinct;
  }

  lemma FlowSame(endpoints: EndpointTable, after: EndpointTable, memory: Memory, sent: Log, received: Log)
    requires SameLive(endpoints, after)
    ensures Flowing(endpoints, memory, sent, received) ==> Flowing(after, memory, sent, received)
  {
    hide Contents, RingOk;
  }

  lemma GrantsSame(endpoints: EndpointTable, after: EndpointTable, capabilities: CapabilityTable)
    requires SameLive(endpoints, after) && CapabilitiesOk(endpoints, capabilities)
    ensures CapabilitiesOk(after, capabilities)
  {
  }

  lemma {:induction false} ExtendedSlots(endpoints: EndpointTable, seed: nat, index: nat)
    requires Numbered(endpoints) && seed != 0 && index <= |endpoints|
             && (index < |endpoints| ==> endpoints[index].value.None?)
    ensures var after := Extended(endpoints, seed, index);
            && index < |after| && after[index].value.None? && SameLive(endpoints, after) && Numbered(after)
            && TotalCapacity(after) == TotalCapacity(endpoints)
  {
    if index == |endpoints| {
      assert Extended(endpoints, seed, index)[..|endpoints|] == endpoints;
    }
  }

  /** What was added to the extended table was added to the table. */
  lemma CreatedFrom(before: EndpointTable, middle: EndpointTable, after: EndpointTable, handle: Handle,
                    endpoint: Endpoint)
    requires SameLive(before, middle) && Added(middle, after, handle, endpoint)
    ensures Live(after, handle) && At(after, handle) == endpoint && Added(before, after, handle, endpoint)
  {
  }

  lemma {:induction false} EndpointAdded(endpoints: EndpointTable, capabilities: CapabilityTable, sent: Log,
                                         received: Log, seed: nat, index: nat, endpoint: Endpoint)
    requires Numbered(endpoints) && seed != 0 && EndpointsOk(endpoints) && CapabilitiesOk(endpoints, capabilities)
             && LogsKept(endpoints, sent, received)
    requires index < |endpoints| && endpoints[index].value.None? && endpoint.handle == HandleAt(endpoints, index)
             && EndpointOk(endpoint, endpoint.handle)
    ensures var after := Put(endpoints, seed, index, endpoint);
            && Numbered(after) && EndpointsOk(after) && CapabilitiesOk(after, capabilities)
            && LogsKept(after, sent[endpoint.handle := []], received[endpoint.handle := []])
            && TotalCapacity(after) == TotalCapacity(endpoints) + Places(endpoint.ring.storage)
            && Added(endpoints, after, endpoint.handle, endpoint)
  {
    hide Put, TotalCapacity, EndpointOk;
    PutLive(endpoints, seed, index, endpoint);
    PutHandle(endpoints, seed, index, endpoint);
    CapacityPut(endpoints, seed, index, endpoint);
  }

  /** A queue that is empty holds nothing yet. */
  lemma {:induction false} FlowAdded(endpoints: EndpointTable, memory: Memory, sent: Log, received: Log, seed: nat,
                                     index: nat, endpoint: Endpoint)
    requires index < |endpoints| && endpoints[index].value.None? && endpoint.handle == HandleAt(endpoints, index)
             && endpoint.ring.length == 0
    ensures Flowing(endpoints, memory, sent, received) ==>
              Flowing(Put(endpoints, seed, index, endpoint), memory, sent[endpoint.handle := []],
                      received[endpoint.handle := []])
  {
    hide Put, RingOk;
    PutLive(endpoints, seed, index, endpoint);
    PutHandle(endpoints, seed, index, endpoint);
  }

  lemma PutHandle(endpoints: EndpointTable, seed: nat, index: nat, endpoint: Endpoint)
    requires index <= |endpoints|
    ensures |Put(endpoints, seed, index, endpoint)| > index
    ensures HandleAt(Put(endpoints, seed, index, endpoint), index)
            == Handle(index, if index == |endpoints| then seed else endpoints[index].generation)
  {
  }

  ghost function Assigned(queueOwner: map<nat, Handle>, frames: seq<nat>, handle: Handle): (after: map<nat, Handle>)
    ensures after.Keys == queueOwner.Keys + Elements(frames)
  {
    queueOwner + (map f | f in Elements(frames) :: handle)
  }

  lemma FramesAdded(endpoints: EndpointTable, queueOwner: map<nat, Handle>, seed: nat, index: nat, endpoint: Endpoint)
    requires FramesApart(endpoints, queueOwner) && Distinct(endpoint.Frames())
             && Elements(endpoint.Frames()) !! queueOwner.Keys
    requires index <= |endpoints| && (index < |endpoints| ==> endpoints[index].value.None?)
    requires endpoint.handle == Handle(index, if index == |endpoints| then seed else endpoints[index].generation)
    ensures FramesApart(Put(endpoints, seed, index, endpoint), Assigned(queueOwner, endpoint.Frames(), endpoint.handle))
  {
    hide Put;
    PutLive(endpoints, seed, index, endpoint);
    PutHandle(endpoints, seed, index, endpoint);
  }

  predicate Addressed(endpoints: EndpointTable, capabilities: CapabilityTable, caller: Handle, capability: Handle,
                      rights: Rights, length: nat) {
    && Live(capabilities, capability) && At(capabilities, capability).owner == caller
    && At(capabilities, capability).rights == rights
    && Live(endpoints, At(capabilities, capability).endpoint)
    && At(endpoints, At(capabilities, capability).endpoint).ring.bytes == length
  }

  predicate RingFull(endpoints: EndpointTable, capabilities: CapabilityTable, capability: Handle) {
    && Live(capabilities, capability) && Live(endpoints, At(capabilities, capability).endpoint)
    && var ring := At(endpoints, At(capabilities, capability).endpoint).ring;
       ring.length == Places(ring.storage)
  }

  predicate RingEmpty(endpoints: EndpointTable, capabilities: CapabilityTable, capability: Handle) {
    && Live(capabilities, capability) && Live(endpoints, At(capabilities, capability).endpoint)
    && At(endpoints, At(capabilities, capability).endpoint).ring.length == 0
  }

  /** The event, if it is live, is signaled; all others are as they were. */
  ghost predicate Rung(before: EventTable, after: EventTable, event: Handle) {
    after == if Live(before, event) then Replaced(before, event, At(before, event).(signaled := true)) else before
  }

  lemma RingBounds(ring: Ring)
    requires RingOk(ring)
    ensures ring.length <= Places(ring.storage)
  {
  }

  /** A queue operation on one endpoint keeps everything else. */
  lemma {:induction false} RingChanged(endpoints: EndpointTable, capabilities: CapabilityTable, queueOwner: map<nat,
                                       Handle>, handle: Handle, ring: Ring)
    requires Numbered(endpoints) && EndpointsOk(endpoints) && CapabilitiesOk(endpoints, capabilities)
             && Live(endpoints, handle) && RingOk(ring)
    requires var was := At(endpoints, handle).ring.storage;
             Places(ring.storage) == Places(was) && (ring.storage == was || (ring.storage.Heap? && was.Heap?))
    ensures var after := Replaced(endpoints, handle, At(endpoints, handle).(ring := ring));
            && Numbered(after) && EndpointsOk(after) && CapabilitiesOk(after, capabilities)
            && TotalCapacity(after) == TotalCapacity(endpoints)
            && (forall sent, received :: LogsKept(endpoints, sent, received) ==> LogsKept(after, sent, received))
            && (FramesApart(endpoints, queueOwner) ==> FramesApart(after, queueOwner))
  {
    hide TotalCapacity, RingOk;
    var endpoint := At(endpoints, handle).(ring := ring);
    ReplacedLive(endpoints, handle, endpoint);
    CapacityAfter(endpoints, handle.index, endpoints[handle.index].(value := Some(endpoint)));
  }

  /** Distinct frames of one endpoint are in no other. */
  lemma QueuesApart(endpoints: EndpointTable, queueOwner: map<nat, Handle>, handle: Handle)
    requires FramesApart(endpoints, queueOwner) && Live(endpoints, handle)
    ensures Separate(At(endpoints, handle).ring.storage)
    ensures forall h, f :: Live(endpoints, h) && h != handle && f in At(endpoints, handle).Frames() ==>
            f !in At(endpoints, h).Frames()
  {
    forall h, f | Live(endpoints, h) && h != handle && f in At(endpoints, handle).Frames()
      ensures f !in At(endpoints, h).Frames()
    {
      assert queueOwner[f] == handle;
    }
  }

  /** A message in the queue of one endpoint is in no other. */
  lemma {:induction false} FlowPushed(endpoints: EndpointTable, memory: Memory, sent: Log, received: Log,
                                      queueOwner: map<nat, Handle>, handle: Handle, bytes: Message)
    requires EndpointsOk(endpoints) && FramesApart(endpoints, queueOwner) && Flowing(endpoints, memory, sent, received)
             && Live(endpoints, handle)
    requires Pushable(At(endpoints, handle).ring, memory, bytes)
    ensures handle in sent
    ensures var ring := At(endpoints, handle).ring;
            var after := Replaced(endpoints, handle, At(endpoints, handle).(ring := Pushed(ring, memory, bytes)));
            Flowing(after, MemoryPushed(ring, memory, bytes), sent[handle := sent[handle] + [bytes]], received)
  {
    hide FramesApart, Contents, Pushed, MemoryPushed, EndpointOk;
    var ring := At(endpoints, handle).ring;
    QueuesApart(endpoints, queueOwner, handle);
    PushAppends(ring, memory, bytes);
    var endpoint := At(endpoints, handle).(ring := Pushed(ring, memory, bytes));
    ReplacedLive(endpoints, handle, endpoint);
    forall h | Live(endpoints, h) && h != handle && RingOk(At(endpoints, h).ring)
      ensures Contents(At(endpoints, h).ring, MemoryPushed(ring, memory, bytes))
              == Contents(At(endpoints, h).ring, memory)
    {
      OtherContents(At(endpoints, handle), At(endpoints, h), memory, bytes);
    }
  }

  lemma OtherContents(endpoint: Endpoint, other: Endpoint, memory: Memory, bytes: Message)
    requires Pushable(endpoint.ring, memory, bytes) && RingOk(other.ring) && forall f :: f in endpoint.Frames() ==>
             f !in other.Frames()
    ensures Contents(other.ring, MemoryPushed(endpoint.ring, memory, bytes)) == Contents(other.ring, memory)
  {
    if endpoint.ring.storage.Frames? {
      assert endpoint.Frames()[endpoint.ring.tail] in endpoint.Frames();
      ContentsElsewhere(other.ring, memory, endpoint.ring.storage.frames[endpoint.ring.tail],
                        TailPage(endpoint.ring, memory, bytes));
    }
  }

  lemma {:induction false} PushKeeps(endpoints: EndpointTable, memory: Memory, capabilities: CapabilityTable, sent: Log,
                                     received: Log,
                                     queueOwner: map<nat, Handle>, handle: Handle, bytes: Message)
    requires Numbered(endpoints) && EndpointsOk(endpoints) && CapabilitiesOk(endpoints, capabilities)
             && LogsKept(endpoints, sent, received)
    requires Live(endpoints, handle) && Pushable(At(endpoints, handle).ring, memory, bytes)
    ensures handle in sent && handle in received
    ensures var ring := At(endpoints, handle).ring;
            var after := Replaced(endpoints, handle, At(endpoints, handle).(ring := Pushed(ring, memory, bytes)));
            && Numbered(after) && EndpointsOk(after) && CapabilitiesOk(after, capabilities)
            && TotalCapacity(after) == TotalCapacity(endpoints)
            && LogsKept(after, sent[handle := sent[handle] + [bytes]], received)
            && (FramesApart(endpoints, queueOwner) ==> FramesApart(after, queueOwner))
            && (FramesApart(endpoints, queueOwner) && Flowing(endpoints, memory, sent, received) ==>
                  Flowing(after, MemoryPushed(ring, memory, bytes), sent[handle := sent[handle] + [bytes]], received))
  {
    hide TotalCapacity, Numbered, CapabilitiesOk, FramesApart, EndpointsOk, RingOk, Flowing, MemoryPushed;
    var ring := At(endpoints, handle).ring;
    PushedOk(ring, memory, bytes);
    RingChanged(endpoints, capabilities, queueOwner, handle, Pushed(ring, memory, bytes));
    if FramesApart(endpoints, queueOwner) && Flowing(endpoints, memory, sent, received) {
      FlowPushed(endpoints, memory, sent, received, queueOwner, handle, bytes);
    }
  }

  lemma {:induction false} FlowPopped(endpoints: EndpointTable, memory: Memory, sent: Log, received: Log,
                                      handle: Handle)
    requires Flowing(endpoints, memory, sent, received) && Live(endpoints, handle) && RingOk(At(endpoints, handle).ring)
             && At(endpoints, handle).ring.length > 0
    ensures handle in sent && handle in received
    ensures var ring := At(endpoints, handle).ring;
            var after := Replaced(endpoints, handle, At(endpoints, handle).(ring := Popped(ring)));
            && Flowing(after, memory, sent, received[handle := received[handle] + [First(ring, memory)]])
            && received[handle] + [First(ring, memory)] <= sent[handle]
  {
    hide Contents, Popped, RingOk;
    var ring := At(endpoints, handle).ring;
    PopTakesFirst(ring, memory);
    ReplacedLive(endpoints, handle, At(endpoints, handle).(ring := Popped(ring)));
    assert sent[handle] == (received[handle] + [First(ring, memory)]) + Contents(Popped(ring), memory);
  }

  lemma {:induction false} PopKeeps(endpoints: EndpointTable, memory: Memory, capabilities: CapabilityTable, sent: Log,
                                    received: Log,
                                    queueOwner: map<nat, Handle>, handle: Handle)
    requires Numbered(endpoints) && EndpointsOk(endpoints) && CapabilitiesOk(endpoints, capabilities)
             && LogsKept(endpoints, sent, received) && Paged(memory)
    requires Live(endpoints, handle) && RingOk(At(endpoints, handle).ring) && At(endpoints, handle).ring.length > 0
    ensures handle in sent && handle in received
    ensures var ring := At(endpoints, handle).ring;
            var after := Replaced(endpoints, handle, At(endpoints, handle).(ring := Popped(ring)));
            && Numbered(after) && EndpointsOk(after) && CapabilitiesOk(after, capabilities)
            && TotalCapacity(after) == TotalCapacity(endpoints)
            && LogsKept(after, sent, received[handle := received[handle] + [First(ring, memory)]])
            && (FramesApart(endpoints, queueOwner) ==> FramesApart(after, queueOwner))
            && (Flowing(endpoints, memory, sent, received) ==>
                  && Flowing(after, memory, sent, received[handle := received[handle] + [First(ring, memory)]])
                  && received[handle] + [First(ring, memory)] <= sent[handle])
  {
    hide TotalCapacity, Numbered, CapabilitiesOk, FramesApart, EndpointsOk, Flowing;
    var ring := At(endpoints, handle).ring;
    PopTakesFirst(ring, memory);
    RingChanged(endpoints, capabilities, queueOwner, handle, Popped(ring));
    if Flowing(endpoints, memory, sent, received) {
      FlowPopped(endpoints, memory, sent, received, handle);
    }
  }

  lemma {:induction false} EndpointRemoved(endpoints: EndpointTable, memory: Memory, sent: Log, received: Log,
                                           handle: Handle)
    requires Numbered(endpoints) && EndpointsOk(endpoints) && LogsKept(endpoints, sent, received)
             && Live(endpoints, handle)
    ensures 0 < Places(At(endpoints, handle).ring.storage) <= TotalCapacity(endpoints)
    ensures var after := Removed(endpoints, handle.index);
            && |after| == |endpoints| && Numbered(after) && EndpointsOk(after) && LogsKept(after, sent, received)
            && (Flowing(endpoints, memory, sent, received) ==> Flowing(after, memory, sent, received))
            && TotalCapacity(after) + Places(At(endpoints, handle).ring.storage) == TotalCapacity(endpoints)
            && !Live(after, handle)
            && forall h :: h != handle ==> (Live(after, h) <==> Live(endpoints, h))
                                           && (Live(endpoints, h) ==> At(after, h) == At(endpoints, h))
  {
    hide TotalCapacity, Contents;
    RemovedLive(endpoints, handle);
    CapacityAfter(endpoints, handle.index, Slot(NextGeneration(handle.generation), None));
  }

  lemma FramesRemoved(endpoints: EndpointTable, queueOwner: map<nat, Handle>, handle: Handle)
    requires FramesApart(endpoints, queueOwner) && Live(endpoints, handle)
    ensures FramesApart(Removed(endpoints, handle.index), queueOwner - Elements(At(endpoints, handle).Frames()))
    ensures Distinct(At(endpoints, handle).Frames()) && Elements(At(endpoints, handle).Frames()) <= queueOwner.Keys
  {
    hide Removed;
    RemovedLive(endpoints, handle);
    var frames := At(endpoints, handle).Frames();
    forall f | f in Elements(frames)
      ensures f in queueOwner
    {
      assert f in frames;
    }
    var after, rest := Removed(endpoints, handle.index), queueOwner - Elements(frames);
    forall h, f | Live(after, h) && f in At(after, h).Frames()
      ensures f in rest && rest[f] == h
    {
      assert Live(endpoints, h) && f in At(endpoints, h).Frames();
    }
  }
}

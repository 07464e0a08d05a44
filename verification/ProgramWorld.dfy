/**
 What a program holds while it starts and runs, and how taking it away again restores
 everything else: frames, IPC, processes, address spaces and tasks.
 */
module ProgramWorld {
  import opened Common
  import opened HandleSlots
  import opened Events
  import opened Ipc
  import opened FramePools
  import Processes
  import Schedulers
  import SchedulerWords

  // --- Frames -------------------------------------------------------------------

  /** Exactly the frames of `extra` are live beyond those of `before`. */
  ghost predicate Owes(before: map<nat, nat>, now: map<nat, nat>, extra: set<nat>) {
    && now.Keys == before.Keys + extra && extra !! before.Keys
    && forall f :: f in before ==> f in now && now[f] == before[f]
  }

  lemma OwesTaken(before: map<nat, nat>, now: map<nat, nat>, after: map<nat, nat>, extra: set<nat>, taken: set<nat>)
    requires Owes(before, now, extra) && taken !! now.Keys && after.Keys == now.Keys + taken
    requires forall f :: f in now ==> f in after && after[f] == now[f]
    ensures Owes(before, after, extra + taken)
  {
  }

  lemma OwesReturned(before: map<nat, nat>, now: map<nat, nat>, extra: set<nat>, returned: set<nat>)
    requires Owes(before, now, extra) && returned <= extra
    ensures Owes(before, now - returned, extra - returned)
  {
  }

  // --- IPC ----------------------------------------------------------------------

  /** Nothing belongs to the client. */
  ghost predicate Clean(snapshot: Snapshot, client: Handle) {
    && (forall h :: Live(snapshot.endpoints, h) ==> !Involves(At(snapshot.endpoints, h), client))
    && (forall c :: Live(snapshot.capabilities, c) ==> At(snapshot.capabilities, c).owner != client)
    && (forall e :: Live(snapshot.events, e) ==> At(snapshot.events, e).owner != client)
    && (forall h :: Live(snapshot.sets, h) ==> At(snapshot.sets, h).owner != client)
  }

  /** Everything there was is still there. */
  ghost predicate Keeps(before: Snapshot, now: Snapshot) {
    && (forall h :: Live(before.endpoints, h) ==>
       Live(now.endpoints, h) && At(now.endpoints, h) == At(before.endpoints, h))
    && (forall c :: Live(before.capabilities, c) ==>
       Live(now.capabilities, c) && At(now.capabilities, c) == At(before.capabilities, c))
    && (forall e :: Live(before.events, e) ==> Live(now.events, e) && At(now.events, e) == At(before.events, e))
    && SameSetOwners(before.sets, now.sets)
  }

  /** An endpoint there was not, between the client and someone. */
  ghost predicate NewEndpoint(before: Snapshot, now: Snapshot, h: Handle, client: Handle) {
    Live(now.endpoints, h) && !Live(before.endpoints, h) && Involves(At(now.endpoints, h), client)
  }

  /** What is new belongs to the client or to an endpoint of the client's. */
  ghost predicate OnlyClients(before: Snapshot, now: Snapshot, client: Handle) {
    && (forall h :: Live(now.endpoints, h) && !Live(before.endpoints, h) ==> NewEndpoint(before, now, h, client))
    && (forall c :: Live(now.capabilities, c) && !Live(before.capabilities, c) ==>
       NewEndpoint(before, now, At(now.capabilities, c).endpoint, client))
    && (forall e :: Live(now.events, e) && !Live(before.events, e) ==> NewEvent(before, now, e, client))
    && (forall h :: NewEndpoint(before, now, h, client) ==>
       !Live(before.events, At(now.endpoints, h).readEvent) && !Live(before.events, At(now.endpoints, h).writeEvent))
  }

  ghost predicate NewEvent(before: Snapshot, now: Snapshot, e: Handle, client: Handle)
    requires Live(now.events, e)
  {
    exists h :: NewEndpoint(before, now, h, client) && EventOf(At(now.endpoints, h), e, At(now.events, e).owner)
  }

  /** The client has come between `before` and `now`, and that is all. */
  ghost predicate ClientOnly(before: Snapshot, now: Snapshot, client: Handle) {
    Clean(before, client) && Keeps(before, now) && OnlyClients(before, now, client) && GrantsLive(before)
  }

  ghost predicate GrantsLive(snapshot: Snapshot) {
    forall c :: Live(snapshot.capabilities, c) ==> Live(snapshot.endpoints, At(snapshot.capabilities, c).endpoint)
  }

  /** The same endpoints, capabilities and events, and the same sets with the same owners. */
  ghost predicate SameIpc(before: Snapshot, after: Snapshot) {
    && (forall h :: Live(after.endpoints, h) <==> Live(before.endpoints, h))
    && (forall h :: Live(before.endpoints, h) ==> At(after.endpoints, h) == At(before.endpoints, h))
    && (forall c :: Live(after.capabilities, c) <==> Live(before.capabilities, c))
    && (forall c :: Live(before.capabilities, c) ==> At(after.capabilities, c) == At(before.capabilities, c))
    && (forall e :: Live(after.events, e) <==> Live(before.events, e))
    && (forall e :: Live(before.events, e) ==> At(after.events, e) == At(before.events, e))
    && (forall h :: Live(after.sets, h) <==> Live(before.sets, h))
    && (forall h :: Live(before.sets, h) ==> At(after.sets, h).owner == At(before.sets, h).owner)
  }

  lemma ClientNotYet(snapshot: Snapshot, client: Handle)
    requires Clean(snapshot, client) && GrantsLive(snapshot)
    ensures ClientOnly(snapshot, snapshot, client)
  {
  }

  /** Removing the client's service removes all that came with it. */
  lemma ClientGone(before: Snapshot, now: Snapshot, after: Snapshot, client: Handle)
    requires ClientOnly(before, now, client) && ServiceGone(now, after, client)
    ensures SameIpc(before, after)
  {
    hide EventOf, Doomed, NewEvent, CapabilityKept;
    EndpointsBack(before, now, after, client);
    CapabilitiesBack(before, now, after, client);
    EventsBack(before, now, after, client);
  }

  /** A service that is gone owns nothing. */
  lemma GoneClean(before: Snapshot, after: Snapshot, service: Handle)
    requires ServiceGone(before, after, service)
    ensures Clean(after, service)
  {
    hide CapabilityKept, Doomed;
  }

  /** Removing another service brings nothing back. */
  lemma StaysClean(before: Snapshot, after: Snapshot, other: Handle, service: Handle)
    requires ServiceGone(before, after, other) && Clean(before, service)
    ensures Clean(after, service)
  {
    hide CapabilityKept, Doomed;
  }

  /** Where a client that owns nothing any more has everything as before, it owned nothing before. */
  lemma RestoringNeedsClean(before: Snapshot, after: Snapshot, client: Handle)
    requires Clean(after, client) && SameIpc(before, after)
    ensures Clean(before, client)
  {
  }

  /** A client with one event of its own: removing its service does not restore that. */
  method OwnEventLost(client: Handle) returns (ipc: IpcRegistry, events: EventRegistry, ghost before: Snapshot)
    requires client.Valid()
    ensures ServiceGone(before, ipc.Snap(events), client) && !SameIpc(before, ipc.Snap(events))
  {
    hide EventRegistry.Valid, IpcRegistry.Valid, IpcRegistry.OwnsFrames, IpcRegistry.InOrder, ServiceGone;
    ipc := new IpcRegistry(1, 0, []);
    events := new EventRegistry(1, []);
    var pool := new FramePool({});
    var event := events.CreateEvent(client);
    before := ipc.Snap(events);
    ipc.DestroyService(client, events, pool);
    GoneClean(before, ipc.Snap(events), client);
    assert Live(before.events, event.value) && At(before.events, event.value).owner == client;
  }

  lemma EndpointsBack(before: Snapshot, now: Snapshot, after: Snapshot, client: Handle)
    requires ClientOnly(before, now, client) && EndpointsKept(now.endpoints, after.endpoints, client, |now.endpoints|)
    ensures forall h :: Live(after.endpoints, h) <==> Live(before.endpoints, h)
    ensures forall h :: Live(before.endpoints, h) ==> At(after.endpoints, h) == At(before.endpoints, h)
  {
    forall h
      ensures Live(after.endpoints, h) <==> Live(before.endpoints, h)
    {
      if Live(now.endpoints, h) && !Live(before.endpoints, h) {
        assert NewEndpoint(before, now, h, client);
      }
    }
  }

  lemma CapabilitiesBack(before: Snapshot, now: Snapshot, after: Snapshot, client: Handle)
    requires ClientOnly(before, now, client)
    requires forall c :: Live(after.capabilities, c) <==>
               Live(now.capabilities, c) && At(now.capabilities, c).owner != client
                   && CapabilityKept(now.endpoints, At(now.capabilities, c), client, |now.endpoints|)
    requires forall c :: Live(after.capabilities, c) ==> At(after.capabilities, c) == At(now.capabilities, c)
    ensures forall c :: Live(after.capabilities, c) <==> Live(before.capabilities, c)
    ensures forall c :: Live(before.capabilities, c) ==> At(after.capabilities, c) == At(before.capabilities, c)
  {
    forall c
      ensures Live(after.capabilities, c) <==> Live(before.capabilities, c)
    {
      if Live(before.capabilities, c) {
        assert Live(before.endpoints, At(before.capabilities, c).endpoint);
      } else if Live(now.capabilities, c) {
        assert NewEndpoint(before, now, At(now.capabilities, c).endpoint, client);
      }
    }
  }

  lemma EventsBack(before: Snapshot, now: Snapshot, after: Snapshot, client: Handle)
    requires ClientOnly(before, now, client)
    requires forall e :: Live(after.events, e) <==>
               Live(now.events, e) && At(now.events, e).owner != client
                   && !Doomed(now.endpoints, e, At(now.events, e).owner, client, |now.endpoints|)
    requires forall e :: Live(after.events, e) ==> At(after.events, e) == At(now.events, e)
    ensures forall e :: Live(after.events, e) <==> Live(before.events, e)
    ensures forall e :: Live(before.events, e) ==> At(after.events, e) == At(before.events, e)
  {
    forall e
      ensures Live(after.events, e) <==> Live(before.events, e)
    {
      if Live(before.events, e) {
        OldEventSafe(before, now, e, client);
      } else if Live(now.events, e) {
        NewEventDoomed(before, now, e, client);
      }
    }
  }

  lemma OldEventSafe(before: Snapshot, now: Snapshot, e: Handle, client: Handle)
    requires ClientOnly(before, now, client) && Live(before.events, e)
    ensures Live(now.events, e) && At(now.events, e).owner != client
            && !Doomed(now.endpoints, e, At(now.events, e).owner, client, |now.endpoints|)
  {
    forall h | Live(now.endpoints, h) && Involves(At(now.endpoints, h), client)
      ensures At(now.endpoints, h).readEvent != e && At(now.endpoints, h).writeEvent != e
    {
      assert NewEndpoint(before, now, h, client);
    }
  }

  lemma NewEventDoomed(before: Snapshot, now: Snapshot, e: Handle, client: Handle)
    requires ClientOnly(before, now, client) && Live(now.events, e) && !Live(before.events, e)
    ensures Doomed(now.endpoints, e, At(now.events, e).owner, client, |now.endpoints|)
  {
    assert NewEvent(before, now, e, client);
    var h :| NewEndpoint(before, now, h, client) && EventOf(At(now.endpoints, h), e, At(now.events, e).owner);
    assert Live(now.endpoints, h);
  }

  // --- Growing IPC ----------------------------------------------------------------

  /** One endpoint has come with its two events. */
  ghost predicate EndpointGrown(now: Snapshot, after: Snapshot, handle: Handle) {
    && Live(after.endpoints, handle) && Added(now.endpoints, after.endpoints, handle, At(after.endpoints, handle))
    && after.capabilities == now.capabilities && after.sets == now.sets
    && var endpoint := At(after.endpoints, handle);
       EventsGrew(now.events, after.events, endpoint.readEvent, endpoint.consumer, endpoint.writeEvent,
                  endpoint.producer)
  }

  lemma GrownKeeps(now: Snapshot, after: Snapshot, handle: Handle)
    requires EndpointGrown(now, after, handle)
    ensures Keeps(now, after)
  {
  }

  /** Another endpoint for the client. */
  lemma ClientEndpoint(before: Snapshot, now: Snapshot, after: Snapshot, client: Handle, handle: Handle)
    requires ClientOnly(before, now, client) && EndpointGrown(now, after, handle)
             && Involves(At(after.endpoints, handle), client)
    ensures ClientOnly(before, after, client)
    ensures NewEndpoint(before, after, handle, client)
    ensures forall h :: NewEndpoint(before, now, h, client) ==> NewEndpoint(before, after, h, client)
  {
    hide Clean, GrantsLive;
    var endpoint := At(after.endpoints, handle);
    forall e | Live(after.events, e) && !Live(before.events, e)
      ensures NewEvent(before, after, e, client)
    {
      if e == endpoint.readEvent || e == endpoint.writeEvent {
        assert NewEndpoint(before, after, handle, client) && EventOf(endpoint, e, At(after.events, e).owner);
      } else {
        assert NewEvent(before, now, e, client);
        var h :| NewEndpoint(before, now, h, client) && EventOf(At(now.endpoints, h), e, At(now.events, e).owner);
        assert NewEndpoint(before, after, h, client) && EventOf(At(after.endpoints, h), e, At(after.events, e).owner);
      }
    }
  }

  /** A capability for one of the client's endpoints. */
  lemma ClientGrant(before: Snapshot, now: Snapshot, after: Snapshot, client: Handle, c: Handle, capability: Capability)
    requires ClientOnly(before, now, client) && NewEndpoint(before, now, capability.endpoint, client)
    requires Added(now.capabilities, after.capabilities, c, capability)
    requires after.endpoints == now.endpoints && after.events == now.events && after.sets == now.sets
    ensures ClientOnly(before, after, client)
    ensures forall h :: NewEndpoint(before, now, h, client) ==> NewEndpoint(before, after, h, client)
  {
    hide Clean, GrantsLive, EventOf;
    forall e | Live(after.events, e) && !Live(before.events, e)
      ensures NewEvent(before, after, e, client)
    {
      assert NewEvent(before, now, e, client);
      var h :| NewEndpoint(before, now, h, client) && EventOf(At(now.endpoints, h), e, At(now.events, e).owner);
      assert NewEndpoint(before, after, h, client);
    }
  }

  /** A refused request leaves the client as it was. */
  lemma ClientUnmoved(before: Snapshot, now: Snapshot, after: Snapshot, client: Handle)
    requires ClientOnly(before, now, client) && Unmoved(now, after)
    ensures ClientOnly(before, after, client)
  {
    hide Clean, GrantsLive, EventOf;
    forall e | Live(after.events, e) && !Live(before.events, e)
      ensures NewEvent(before, after, e, client)
    {
      assert NewEvent(before, now, e, client);
      var h :| NewEndpoint(before, now, h, client) && EventOf(At(now.endpoints, h), e, At(now.events, e).owner);
      assert NewEndpoint(before, after, h, client);
    }
  }

  /** One of the client's endpoints is taken down again. */
  lemma ClientEndpointGone(before: Snapshot, now: Snapshot, after: Snapshot, client: Handle, handle: Handle)
    requires ClientOnly(before, now, client) && NewEndpoint(before, now, handle, client)
             && Destroyed(now, after, handle)
    ensures ClientOnly(before, after, client)
  {
    hide Clean, EventOf;
    forall c | Live(before.capabilities, c)
      ensures Live(after.capabilities, c)
    {
      assert Live(before.endpoints, At(before.capabilities, c).endpoint);
    }
    forall e | Live(after.events, e) && !Live(before.events, e)
      ensures NewEvent(before, after, e, client)
    {
      assert NewEvent(before, now, e, client);
      var h :| NewEndpoint(before, now, h, client) && EventOf(At(now.endpoints, h), e, At(now.events, e).owner);
      assert h != handle;
      assert NewEndpoint(before, after, h, client);
    }
    forall e | Live(before.events, e)
      ensures Live(after.events, e)
    {
      OldEventKept(before, now, client, handle, e);
    }
  }

  lemma OldEventKept(before: Snapshot, now: Snapshot, client: Handle, handle: Handle, e: Handle)
    requires ClientOnly(before, now, client) && NewEndpoint(before, now, handle, client) && Live(before.events, e)
    ensures Live(now.events, e) && !EventOf(At(now.endpoints, handle), e, At(now.events, e).owner)
  {
  }

  /** The queue frames of endpoints that are still there are still queue frames. */
  lemma QueuesKept(before: Snapshot, after: Snapshot, ownerBefore: map<nat, Handle>, ownerAfter: map<nat, Handle>)
    requires Keeps(before, after) && FramesApart(before.endpoints, ownerBefore)
             && FramesApart(after.endpoints, ownerAfter)
    ensures ownerBefore.Keys <= ownerAfter.Keys
  {
    hide FramesApart;
    forall f | f in ownerBefore
      ensures f in ownerAfter
    {
      QueueFrame(before.endpoints, ownerBefore, f);
      FrameOfQueue(after.endpoints, ownerAfter, ownerBefore[f], f);
    }
  }

  lemma QueueFrame(endpoints: EndpointTable, owner: map<nat, Handle>, f: nat)
    requires FramesApart(endpoints, owner) && f in owner
    ensures Live(endpoints, owner[f]) && f in At(endpoints, owner[f]).Frames()
  {
  }

  lemma FrameOfQueue(endpoints: EndpointTable, owner: map<nat, Handle>, h: Handle, f: nat)
    requires FramesApart(endpoints, owner) && Live(endpoints, h) && f in At(endpoints, h).Frames()
    ensures f in owner && owner[f] == h
  {
  }

  /** Queue frames are told by the endpoints. */
  lemma SameQueues(before: EndpointTable, after: EndpointTable, ownerBefore: map<nat, Handle>, ownerAfter: map<nat,
                   Handle>)
    requires FramesApart(before, ownerBefore) && FramesApart(after, ownerAfter)
    requires forall h :: Live(after, h) <==> Live(before, h)
    requires forall h :: Live(before, h) ==> At(after, h) == At(before, h)
    ensures ownerAfter == ownerBefore
  {
    hide FramesApart;
    forall f | f in ownerBefore
      ensures f in ownerAfter && ownerAfter[f] == ownerBefore[f]
    {
      QueueFrame(before, ownerBefore, f);
      FrameOfQueue(after, ownerAfter, ownerBefore[f], f);
    }
    forall f | f in ownerAfter
      ensures f in ownerBefore
    {
      QueueFrame(after, ownerAfter, f);
      FrameOfQueue(before, ownerBefore, ownerAfter[f], f);
    }
  }

  // --- Processes and tasks ----------------------------------------------------------

  /** One process has come into a vacant slot, with a space that was vacant. */
  ghost predicate ProcessOnly(slots: seq<Processes.Process>, spaces: seq<Processes.Space>,
                              slots': seq<Processes.Process>, spaces': seq<Processes.Space>,
      process: Processes.Handle) {
    && process.slot < |slots| && slots[process.slot].state == Processes.Vacant
    && |slots'| == |slots| && slots' == slots[process.slot := slots'[process.slot]] && slots'[process.slot].space.Some?
    && var s := slots'[process.slot].space.value.slot;
       s < |spaces| == |spaces'| && !spaces[s].reserved && spaces' == spaces[s := spaces'[s]]
  }

  /** The same processes and spaces, apart from the generations of vacant slots. */
  ghost predicate SameProcesses(slots: seq<Processes.Process>, spaces: seq<Processes.Space>,
                                slots': seq<Processes.Process>, spaces': seq<Processes.Space>) {
    && |slots'| == |slots| && |spaces'| == |spaces|
    && (forall p :: 0 <= p < |slots| ==> slots'[p] == slots[p]
                                         || (slots[p].state == Processes.Vacant && slots'[p].state == Processes.Vacant))
    && (forall s :: 0 <= s < |spaces| ==> spaces'[s] == spaces[s] || (!spaces[s].reserved && !spaces'[s].reserved))
  }

  lemma ProcessGone(slots: seq<Processes.Process>, spaces: seq<Processes.Space>, slots1: seq<Processes.Process>,
                    spaces1: seq<Processes.Space>,
                    slots2: seq<Processes.Process>, spaces2: seq<Processes.Space>, process: Processes.Handle)
    requires ProcessOnly(slots, spaces, slots1, spaces1, process)
             && Processes.Vacated(slots1, spaces1, slots2, spaces2, process)
    ensures SameProcesses(slots, spaces, slots2, spaces2)
  {
  }

  /** The same tasks, apart from the generations of vacant slots. */
  ghost predicate SameTasks(tasks: seq<Schedulers.Task>, tasks': seq<Schedulers.Task>) {
    && |tasks'| == |tasks|
    && forall t :: 0 <= t < |tasks| ==>
         || tasks'[t] == tasks[t]
         || (tasks[t].word.state == SchedulerWords.Vacant && tasks'[t].word.state == SchedulerWords.Vacant)
  }

  // --- Worlds -------------------------------------------------------------------

  /** Everything programs share. */
  datatype World = World(live: map<nat, nat>, ipc: Snapshot, queueOwner: map<nat, Handle>,
                         slots: seq<Processes.Process>, spaces: seq<Processes.Space>, tasks: seq<Schedulers.Task>)

  /** Nothing that was there is missing or changed, and nothing new is left. */
  ghost predicate Restored(before: World, after: World) {
    && after.live == before.live && SameIpc(before.ipc, after.ipc) && after.queueOwner == before.queueOwner
    && SameProcesses(before.slots, before.spaces, after.slots, after.spaces) && SameTasks(before.tasks, after.tasks)
  }
}

/**
 The steps of a program start, over frames, page tables, processes and IPC, and the step
 that takes everything back.
 */
module ProgramSteps {
  import opened Common
  import opened HandleSlots
  import opened FramePools
  import opened PageWalk
  import opened PageTables
  import opened Events
  import opened Ipc
  import opened Loader
  import opened ProgramWorld
  import opened ProgramStage
  import Processes
  import Schedulers
  import ImageMapping
  import Populate
  import Elf

  datatype ProgramError =
    | Resources
    | PageTableRoot(root: PageTableError)
    | PageTableMap(map': PageTableError)
    | ProcessFailure(process: Processes.ProcessError)
    | IpcCapacity
    | IpcPrivateMapping
    | IpcPrivateProcess
    | TaskCapacity
    | TaskAddressSpace
    | TaskLaunch
    | TaskStop

  function Listed(frame: Option<nat>): seq<nat> {
    if frame.Some? then [frame.value] else []
  }

  /** The frames of an image. */
  ghost function ImageFrames(pages: seq<LoadedPage>): set<nat> {
    Elements(FramesOf(pages))
  }

  /** Destroy the client's IPC. */
  method DropClient(deps: ProgramDeps, client: Handle, ghost before: World, ghost tables: set<nat>,
                    ghost extra: set<nat>,
                    ghost process: Option<Processes.Handle>, ghost clean: bool)
    requires deps.Valid() && Stage(before, deps.Now(), tables, extra, process, Some(client), clean)
    modifies deps.pool, deps.ipc, deps.events
    ensures deps.Valid() && deps.pool.Universe() == old(deps.pool.Universe())
            && Stage(before, deps.Now(), tables, extra, process, None, clean)
    ensures ServiceGone(old(deps.Now()).ipc, deps.Now().ipc, client)
    ensures deps.ipc.queueOwner.Keys <= old(deps.ipc.queueOwner).Keys
            && deps.pool.live.Keys >= old(deps.pool.live).Keys - old(deps.ipc.queueOwner).Keys
  {
    hide FramePool.Valid, Processes.ProcessTable.Valid, IpcRegistry.Valid, EventRegistry.Valid,
         Schedulers.Scheduler.Valid, Ledger, FramesApart, ServiceGone;
    ghost var now := deps.Now();
    deps.ipc.DestroyService(client, deps.events, deps.pool);
    if clean {
      StageClientGone(before, now, deps.Now(), tables + extra, client);
    }
  }

  /** Undo a start: everything it has taken goes back, and so do the frames of the image. */
  method AbortStart(deps: ProgramDeps, process: Option<Processes.Handle>, tables: PageTableBuilder, image: LoadedImage,
                    client: Option<Handle>,
                    staging: Option<nat>, bootstrap: Option<nat>, ghost before: World, ghost clean: bool)
    requires deps.Valid() && tables.OwnedFrames(deps.pool)
             && (process.Some? ==> deps.processes.IsRunning(process.value))
    requires Stage(before, deps.Now(), tables.owned, Elements(Listed(staging) + Listed(bootstrap)), process, client,
                   clean)
    requires ImageFrames(image.pages) <= Standing(before)
    modifies deps.pool, deps.processes, deps.ipc, deps.events, tables, image
    ensures deps.Valid() && Standing(before) - ImageFrames(old(image.pages)) <= Standing(deps.Now())
    ensures clean ==> Restored(before.(live := before.live - ImageFrames(old(image.pages))), deps.Now())
    ensures SameProcesses(before.slots, before.spaces, deps.processes.slots, deps.processes.spaces)
    ensures client.Some? ==> Clean(deps.Now().ipc, client.value)
    ensures client.None? ==> deps.Now().ipc == old(deps.Now()).ipc
  {
    hide FramePool.Valid, Processes.ProcessTable.Valid, IpcRegistry.Valid, EventRegistry.Valid,
         Schedulers.Scheduler.Valid, Ledger, SameIpc, SameProcesses, Elements, FramesApart, ServiceGone, Clean;
    ghost var owned, extra := tables.owned, Elements(Listed(staging) + Listed(bootstrap));
    if client.Some? {
      DropClient(deps, client.value, before, owned, extra, process, clean);
    }
    ghost var now := deps.Now();
    if client.Some? {
      GoneClean(old(deps.Now()).ipc, now.ipc, client.value);
    }
    DropProcess(deps, process);
    StageProcessGone(before, now, process, deps.processes.slots, deps.processes.spaces);
    ReturnFrames(deps, tables, image, staging, bootstrap);
    if clean {
      AllReturned(before, now, owned, extra);
      SameTasksSelf(before.tasks);
    }
  }

  /** Give back the frames of the tables, the private pages and the image. */
  method ReturnFrames(deps: ProgramDeps, tables: PageTableBuilder, image: LoadedImage, staging: Option<nat>,
                      bootstrap: Option<nat>)
    requires deps.Valid() && tables.OwnedFrames(deps.pool)
    requires (tables.owned + Elements(Listed(staging) + Listed(bootstrap)) + ImageFrames(image.pages))
             !! deps.ipc.queueOwner.Keys
    modifies deps.pool, tables, image
    ensures deps.Valid()
    ensures deps.pool.live == old(deps.pool.live) - old(tables.owned) - Elements(Listed(staging) + Listed(bootstrap))
            - ImageFrames(old(image.pages))
  {
    hide FramePool.Valid, Processes.ProcessTable.Valid, IpcRegistry.Valid, EventRegistry.Valid,
         Schedulers.Scheduler.Valid, Elements, FramesApart;
    tables.Reclaim(deps.pool);
    ReleaseEach(deps.pool, Listed(staging) + Listed(bootstrap));
    image.Reclaim(deps.pool);
  }

  lemma SameTasksSelf(tasks: seq<Schedulers.Task>)
    ensures SameTasks(tasks, tasks)
  {
  }

  /** End a process and vacate its slot. */
  method DropProcess(deps: ProgramDeps, process: Option<Processes.Handle>)
    requires deps.processes.Valid() && (process.Some? ==> deps.processes.IsRunning(process.value))
    modifies deps.processes
    ensures deps.processes.Valid()
    ensures process.None? ==> deps.processes.slots == old(deps.processes.slots)
                              && deps.processes.spaces == old(deps.processes.spaces)
    ensures process.Some? ==> Processes.Vacated(old(deps.processes.slots), old(deps.processes.spaces),
                                                deps.processes.slots, deps.processes.spaces, process.value)
  {
    hide Processes.ProcessTable.Valid;
    if process.Some? {
      var _ := deps.processes.Exit(process.value, 1);
      var _ := deps.processes.Reclaim(process.value);
    }
  }

  // --- Queues and capabilities --------------------------------------------------------

  const KERNEL: nat := 1

  datatype Spec = Spec(producer: Handle, consumer: Handle, contractId: nat, bytes: nat, capacity: nat)

  /** Take `count` frames, or none. */
  method TakeFrames(pool: FramePool, count: nat) returns (r: Option<seq<nat>>)
    requires pool.Valid()
    modifies pool
    ensures pool.Valid() && pool.Universe() == old(pool.Universe())
    ensures r.Some? ==> |r.value| == count && Distinct(r.value)
                        && TookFrames(old(pool.live), pool.live, Elements(r.value))
    ensures r.None? ==> pool.live == old(pool.live)
  {
    hide FramePool.Counted;
    var frames: seq<nat> := [];
    for k := 0 to count
      invariant pool.Valid() && pool.Universe() == old(pool.Universe())
      invariant |frames| == k && Distinct(frames) && TookFrames(old(pool.live), pool.live, Elements(frames))
    {
      var frame := pool.AllocateFor(KERNEL);
      if frame.Err? {
        ReleaseEach(pool, frames);
        return None;
      }
      DistinctAppend(frames, frame.value);
      assert Elements(frames + [frame.value]) == Elements(frames) + {frame.value};
      frames := frames + [frame.value];
    }
    r := Some(frames);
  }

  /** An endpoint as asked for, empty and in frames, with a capability for each side. */
  ghost predicate Opened(ipc: Snapshot, spec: Spec, epoch: nat, h: Handle, send: Handle, receive: Handle) {
    && IsQueue(ipc.endpoints, spec, epoch, h)
    && Live(ipc.capabilities, send) && Allows(At(ipc.capabilities, send), spec.producer, h, SendRight)
    && Live(ipc.capabilities, receive) && Allows(At(ipc.capabilities, receive), spec.consumer, h, ReceiveRight)
  }

  ghost predicate IsQueue(endpoints: EndpointTable, spec: Spec, epoch: nat, h: Handle) {
    && Live(endpoints, h) && Serves(At(endpoints, h), spec.producer, spec.consumer, spec.contractId)
    && At(endpoints, h).epoch == epoch
    && At(endpoints, h).ring.bytes == spec.bytes && At(endpoints, h).ring.length == 0
    && |At(endpoints, h).Frames()| == spec.capacity
  }

  ghost predicate Provided(ipc: Snapshot, spec: Spec, epoch: nat) {
    exists h, send, receive :: Opened(ipc, spec, epoch, h, send, receive)
  }

  lemma StaysProvided(now: Snapshot, after: Snapshot, spec: Spec, epoch: nat)
    requires Provided(now, spec, epoch) && Keeps(now, after)
    ensures Provided(after, spec, epoch)
  {
    var h, send, receive :| Opened(now, spec, epoch, h, send, receive);
    assert Opened(after, spec, epoch, h, send, receive);
  }

  /**
   One queue of the client's surface: an endpoint in frames of its own, with a capability for
   each side, or nothing.
   */
  method ProvisionOne(deps: ProgramDeps, spec: Spec, epoch: nat, client: Handle, ghost before: World,
                      ghost tables: set<nat>,
                      ghost process: Option<Processes.Handle>, ghost clean: bool)
    returns (r: Result<Unit, ProgramError>)
    requires deps.Valid() && Stage(before, deps.Now(), tables, {}, process, Some(client), clean)
    requires spec.producer == client || spec.consumer == client
    modifies deps`verdicts, deps.pool, deps.ipc, deps.events
    ensures deps.Valid() && deps.pool.Universe() == old(deps.pool.Universe())
    ensures Stage(before, deps.Now(), tables, {}, process, Some(client), clean)
    ensures r.Ok? ==> Provided(deps.Now().ipc, spec, epoch) && Keeps(old(deps.Now()).ipc, deps.Now().ipc)
    ensures r.Err? ==> r.error == Resources || r.error == IpcCapacity
  {
    hide ProgramDeps.Valid, Stage, NewEndpoint, Keeps, IsQueue;
    var endpoint := OpenQueue(deps, spec, epoch, client, before, tables, process, clean);
    if endpoint.Err? {
      return Err(endpoint.error);
    }
    ghost var now := deps.Now().ipc;
    var granted := GrantBoth(deps, spec, epoch, endpoint.value, client, before, tables, process, clean);
    if !granted {
      CloseQueue(deps, endpoint.value, client, before, tables, process, clean);
      return Err(IpcCapacity);
    }
    KeepsOn(old(deps.Now()).ipc, now, deps.Now().ipc);
    r := Ok(Unit.Unit);
  }

  lemma KeepsOn(before: Snapshot, now: Snapshot, after: Snapshot)
    requires Keeps(before, now) && Keeps(now, after)
    ensures Keeps(before, after)
  {
  }

  /** Frames and an endpoint in them, or neither. */
  method OpenQueue(deps: ProgramDeps, spec: Spec, epoch: nat, client: Handle, ghost before: World,
                   ghost tables: set<nat>,
                   ghost process: Option<Processes.Handle>, ghost clean: bool)
    returns (r: Result<Handle, ProgramError>)
    requires deps.Valid() && Stage(before, deps.Now(), tables, {}, process, Some(client), clean)
    requires spec.producer == client || spec.consumer == client
    modifies deps`verdicts, deps.pool, deps.ipc, deps.events
    ensures deps.Valid() && deps.pool.Universe() == old(deps.pool.Universe())
    ensures Stage(before, deps.Now(), tables, {}, process, Some(client), clean)
    ensures r.Ok? ==> Live(deps.ipc.endpoints, r.value) && IsQueue(deps.ipc.endpoints, spec, epoch, r.value)
                      && Keeps(old(deps.Now()).ipc, deps.Now().ipc)
    ensures r.Ok? && clean ==> NewEndpoint(before.ipc, deps.Now().ipc, r.value, client)
    ensures r.Err? ==> r.error == Resources || r.error == IpcCapacity
  {
    hide FramePool.Valid, Processes.ProcessTable.Valid, IpcRegistry.Valid, EventRegistry.Valid,
         Schedulers.Scheduler.Valid, Stage, ClientOnly, FramesApart, EventsGrew, Distinct, Elements, Added,
         IpcRegistry.InOrder, Unmoved, NewEndpoint, Keeps, Proper, AllAgree;
    ghost var start := deps.Now();
    var room := Agrees(deps.verdicts);
    deps.verdicts := LaterVerdicts(deps.verdicts);
    if !room {
      return Err(Resources);
    }
    var frames := TakeFrames(deps.pool, spec.capacity);
    if frames.None? {
      return Err(Resources);
    }
    ghost var now := deps.Now();
    var endpoint := deps.ipc.CreateEndpoint(spec.producer, spec.consumer, spec.contractId, spec.bytes, spec.capacity,
                                            epoch, Some(frames.value), deps.events);
    if endpoint.Err? {
      ReleaseEach(deps.pool, frames.value);
      TookBack(start.live, now.live, Elements(frames.value));
      if clean {
        StageClientIs(before, start, tables, {}, process, client);
        ClientUnmoved(before.ipc, start.ipc, deps.Now().ipc, client);
      }
      StageIpc(before, start, deps.Now(), tables, {}, process, client, clean);
      return Err(IpcCapacity);
    }
    GrownKeeps(start.ipc, deps.Now().ipc, endpoint.value);
    if clean {
      StageClientIs(before, start, tables, {}, process, client);
      ClientEndpoint(before.ipc, start.ipc, deps.Now().ipc, client, endpoint.value);
    }
    StageEndpoint(before, start, deps.Now(), tables, {}, process, client, clean, Elements(frames.value));
    r := Ok(endpoint.value);
  }

  /** Take a queue of the client's down again. */
  method CloseQueue(deps: ProgramDeps, endpoint: Handle, client: Handle, ghost before: World, ghost tables: set<nat>,
                    ghost process: Option<Processes.Handle>, ghost clean: bool)
    requires deps.Valid() && Stage(before, deps.Now(), tables, {}, process, Some(client), clean)
             && Live(deps.ipc.endpoints, endpoint)
    requires clean ==> NewEndpoint(before.ipc, deps.Now().ipc, endpoint, client)
    modifies deps.pool, deps.ipc, deps.events
    ensures deps.Valid() && deps.pool.Universe() == old(deps.pool.Universe())
    ensures Stage(before, deps.Now(), tables, {}, process, Some(client), clean)
    ensures Destroyed(old(deps.Now()).ipc, deps.Now().ipc, endpoint)
  {
    hide FramePool.Valid, Processes.ProcessTable.Valid, IpcRegistry.Valid, EventRegistry.Valid,
         Schedulers.Scheduler.Valid, Stage, ClientOnly, FramesApart, IpcRegistry.InOrder, Destroyed, NewEndpoint;
    ghost var now := deps.Now();
    var _ := deps.ipc.DestroyEndpointWithPool(endpoint, deps.events, deps.pool);
    if clean {
      StageClientIs(before, now, tables, {}, process, client);
      ClientEndpointGone(before.ipc, now.ipc, deps.Now().ipc, client, endpoint);
    }
    StageEndpointGone(before, now, deps.Now(), tables, {}, process, client, clean);
  }

  lemma TookBack(live: map<nat, nat>, taken: map<nat, nat>, frames: set<nat>)
    requires TookFrames(live, taken, frames)
    ensures taken - frames == live
  {
  }

  lemma StageClientIs(before: World, now: World, tables: set<nat>, extra: set<nat>, process: Option<Processes.Handle>,
                      client: Handle)
    requires Stage(before, now, tables, extra, process, Some(client), true)
    ensures ClientOnly(before.ipc, now.ipc, client)
  {
  }

  /** A capability for each side of a new endpoint of the client's, unless a grant is refused. */
  method GrantBoth(deps: ProgramDeps, spec: Spec, epoch: nat, endpoint: Handle, client: Handle, ghost before: World,
                   ghost tables: set<nat>,
                   ghost process: Option<Processes.Handle>, ghost clean: bool)
    returns (granted: bool)
    requires deps.Valid() && Stage(before, deps.Now(), tables, {}, process, Some(client), clean)
             && IsQueue(deps.ipc.endpoints, spec, epoch, endpoint)
    requires clean ==> NewEndpoint(before.ipc, deps.Now().ipc, endpoint, client)
    modifies deps.ipc`capabilities, deps.ipc`verdicts
    ensures deps.Valid() && Stage(before, deps.Now(), tables, {}, process, Some(client), clean)
    ensures clean ==> NewEndpoint(before.ipc, deps.Now().ipc, endpoint, client)
    ensures granted ==> Provided(deps.Now().ipc, spec, epoch) && Keeps(old(deps.Now()).ipc, deps.Now().ipc)
  {
    hide ProgramDeps.Valid, Stage, NewEndpoint, Added;
    var send := GrantOne(deps, endpoint, SendRight, client, before, tables, process, clean);
    if send.None? {
      return false;
    }
    ghost var now := deps.Now().ipc;
    var receive := GrantOne(deps, endpoint, ReceiveRight, client, before, tables, process, clean);
    if receive.None? {
      return false;
    }
    GrantKeeps(old(deps.Now()).ipc, now, send.value, At(now.capabilities, send.value));
    GrantKeeps(now, deps.Now().ipc, receive.value, At(deps.ipc.capabilities, receive.value));
    assert Opened(deps.Now().ipc, spec, epoch, endpoint, send.value, receive.value);
    granted := true;
  }

  lemma GrantKeeps(now: Snapshot, after: Snapshot, c: Handle, capability: Capability)
    requires Added(now.capabilities, after.capabilities, c, capability)
             && after == now.(capabilities := after.capabilities)
    ensures Keeps(now, after)
  {
  }

  method GrantOne(deps: ProgramDeps, endpoint: Handle, rights: Rights, client: Handle, ghost before: World,
                  ghost tables: set<nat>,
                  ghost process: Option<Processes.Handle>, ghost clean: bool)
    returns (granted: Option<Handle>)
    requires deps.Valid() && Stage(before, deps.Now(), tables, {}, process, Some(client), clean)
             && Live(deps.ipc.endpoints, endpoint)
    requires clean ==> NewEndpoint(before.ipc, deps.Now().ipc, endpoint, client)
    modifies deps.ipc`capabilities, deps.ipc`verdicts
    ensures deps.Valid() && Stage(before, deps.Now(), tables, {}, process, Some(client), clean)
    ensures clean ==> NewEndpoint(before.ipc, deps.Now().ipc, endpoint, client)
    ensures granted.Some? ==>
              && Live(deps.ipc.capabilities, granted.value)
              && Added(old(deps.ipc.capabilities), deps.ipc.capabilities, granted.value,
                       At(deps.ipc.capabilities, granted.value))
              && Allows(At(deps.ipc.capabilities, granted.value), Side(At(deps.ipc.endpoints, endpoint), rights),
                        endpoint, rights)
  {
    hide FramePool.Valid, Processes.ProcessTable.Valid, IpcRegistry.Valid, EventRegistry.Valid,
         Schedulers.Scheduler.Valid, Stage, ClientOnly, FramesApart;
    ghost var now := deps.Now();
    var owner := Side(At(deps.ipc.endpoints, endpoint), rights);
    var capability := deps.ipc.Grant(owner, endpoint, rights);
    if capability.Err? {
      return None;
    }
    if clean {
      StageClientIs(before, now, tables, {}, process, client);
      ClientGrant(before.ipc, now.ipc, deps.Now().ipc, client, capability.value,
                  Capability(capability.value, owner, endpoint, rights, At(deps.ipc.endpoints, endpoint).epoch));
    }
    StageIpc(before, now, deps.Now(), tables, {}, process, client, clean);
    granted := Some(capability.value);
  }

  /** The message sizes of the five surface queues. */
  datatype Sizes = Sizes(request: nat, response: nat, input: nat, render: nat, draw: nat)

  const CONTRACT_RENDER: nat := 2
  const CONTRACT_REQUEST: nat := 21
  const CONTRACT_RESPONSE: nat := 22
  const CONTRACT_INPUT: nat := 23
  const CONTRACT_DRAW: nat := 24

  function SurfaceSpecs(client: Handle, atrium: Handle, sizes: Sizes): seq<Spec> {
    [
      Spec(client, atrium, CONTRACT_REQUEST, sizes.request, 1),
      Spec(atrium, client, CONTRACT_RESPONSE, sizes.response, 1),
      Spec(atrium, client, CONTRACT_INPUT, sizes.input, 32),
      Spec(client, atrium, CONTRACT_RENDER, sizes.render, 1),
      Spec(client, atrium, CONTRACT_DRAW, sizes.draw, 1)
    ]
  }

  lemma SpecsInvolve(client: Handle, atrium: Handle, sizes: Sizes, k: nat)
    requires k < |SurfaceSpecs(client, atrium, sizes)|
    ensures var spec := SurfaceSpecs(client, atrium, sizes)[k]; spec.producer == client || spec.consumer == client
  {
  }

  lemma NoneProvided(ipc: Snapshot, epoch: nat)
    ensures AllProvided(ipc, [], epoch)
  {
  }

  datatype Surface = Surface(request: Handle, response: Handle, input: Handle, render: Handle, draw: Handle)

  function ProducerOf(client: Handle, peer: Handle, rights: Rights): Handle {
    if rights == SendRight then client else peer
  }

  function ConsumerOf(client: Handle, peer: Handle, rights: Rights): Handle {
    if rights == SendRight then peer else client
  }

  /** The capability is the client's, for the first endpoint of the contract with the peer. */
  ghost predicate Bears(endpoints: EndpointTable, capabilities: CapabilityTable, c: Handle, client: Handle,
                        peer: Handle, contractId: nat, rights: Rights) {
    && Live(capabilities, c) && At(capabilities, c).owner == client && At(capabilities, c).rights == rights
    && FirstServing(endpoints, At(capabilities, c).endpoint, ProducerOf(client, peer, rights),
                    ConsumerOf(client, peer, rights), contractId)
  }

  /** The client's capability for its side of a contract with a peer. */
  method ProgramCapability(ipc: IpcRegistry, client: Handle, peer: Handle, contractId: nat, rights: Rights)
      returns (r: Result<Handle, ProgramError>)
    requires ipc.Valid()
    ensures r.Ok? ==> Bears(ipc.endpoints, ipc.capabilities, r.value, client, peer, contractId, rights)
    ensures r.Err? ==> r.error == IpcCapacity
    ensures r.Err? <==>
              || !client.Valid() || !peer.Valid() || contractId == 0
              || forall c :: Live(ipc.capabilities, c) ==>
                 !Bears(ipc.endpoints, ipc.capabilities, c, client, peer, contractId, rights)
  {
    hide IpcRegistry.Valid;
    var endpoint := ipc.FindEndpoint(ProducerOf(client, peer, rights), ConsumerOf(client, peer, rights), contractId);
    if endpoint.Err? {
      return Err(IpcCapacity);
    }
    var capability := ipc.CapabilityFor(client, endpoint.value, rights);
    if capability.Err? {
      OneFirst(ipc, endpoint.value, ProducerOf(client, peer, rights), ConsumerOf(client, peer, rights), contractId);
      return Err(IpcCapacity);
    }
    r := Ok(capability.value);
  }

  lemma OneFirst(ipc: IpcRegistry, first: Handle, producer: Handle, consumer: Handle, contractId: nat)
    requires ipc.Valid() && FirstServing(ipc.endpoints, first, producer, consumer, contractId)
    ensures forall h :: FirstServing(ipc.endpoints, h, producer, consumer, contractId) ==> h == first
  {
  }

  /** The five capabilities a program is told about are its own, one for each contract with the atrium. */
  ghost predicate Announced(endpoints: EndpointTable, capabilities: CapabilityTable, client: Handle, atrium: Handle,
                            surface: Surface) {
    && Bears(endpoints, capabilities, surface.request, client, atrium, CONTRACT_REQUEST, SendRight)
    && Bears(endpoints, capabilities, surface.response, client, atrium, CONTRACT_RESPONSE, ReceiveRight)
    && Bears(endpoints, capabilities, surface.input, client, atrium, CONTRACT_INPUT, ReceiveRight)
    && Bears(endpoints, capabilities, surface.render, client, atrium, CONTRACT_RENDER, SendRight)
    && Bears(endpoints, capabilities, surface.draw, client, atrium, CONTRACT_DRAW, SendRight)
  }

  method SurfaceCapabilities(ipc: IpcRegistry, client: Handle, atrium: Handle)
      returns (r: Result<Surface, ProgramError>)
    requires ipc.Valid()
    ensures r.Ok? ==> Announced(ipc.endpoints, ipc.capabilities, client, atrium, r.value)
    ensures r.Err? ==> r.error == IpcCapacity
  {
    hide IpcRegistry.Valid, Bears;
    var request := ProgramCapability(ipc, client, atrium, CONTRACT_REQUEST, SendRight);
    if request.Err? { return Err(request.error); }
    var response := ProgramCapability(ipc, client, atrium, CONTRACT_RESPONSE, ReceiveRight);
    if response.Err? { return Err(response.error); }
    var input := ProgramCapability(ipc, client, atrium, CONTRACT_INPUT, ReceiveRight);
    if input.Err? { return Err(input.error); }
    var render := ProgramCapability(ipc, client, atrium, CONTRACT_RENDER, SendRight);
    if render.Err? { return Err(render.error); }
    var draw := ProgramCapability(ipc, client, atrium, CONTRACT_DRAW, SendRight);
    if draw.Err? { return Err(draw.error); }
    r := Ok(Surface(request.value, response.value, input.value, render.value, draw.value));
  }

  ghost predicate AllProvided(ipc: Snapshot, specs: seq<Spec>, epoch: nat) {
    forall spec :: spec in specs ==> Provided(ipc, spec, epoch)
  }

  lemma {:induction false} OneMoreProvided(now: Snapshot, after: Snapshot, specs: seq<Spec>, epoch: nat, k: nat)
    requires k < |specs| && AllProvided(now, specs[..k], epoch) && Provided(after, specs[k], epoch) && Keeps(now, after)
    ensures AllProvided(after, specs[..k + 1], epoch)
  {
    hide Provided, Keeps;
    forall spec | spec in specs[..k]
      ensures Provided(after, spec, epoch)
    {
      StaysProvided(now, after, spec, epoch);
    }
    assert specs[..k + 1] == specs[..k] + [specs[k]];
  }

  /**
   Five empty queues between the client and the atrium with capabilities for both sides, and
   the client's are announced.
   */
  ghost predicate Surfaced(ipc: Snapshot, client: Handle, atrium: Handle, epoch: nat, sizes: Sizes, surface: Surface) {
    && AllProvided(ipc, SurfaceSpecs(client, atrium, sizes), epoch)
    && Announced(ipc.endpoints, ipc.capabilities, client, atrium, surface)
  }

  /** All five queues and the client's capabilities for them, or none of it. */
  method ProvisionSurface(deps: ProgramDeps, client: Handle, atrium: Handle, epoch: nat, sizes: Sizes,
                          ghost before: World, ghost tables: set<nat>,
                          ghost process: Option<Processes.Handle>, ghost clean: bool)
    returns (r: Result<Surface, ProgramError>)
    requires deps.Valid() && Stage(before, deps.Now(), tables, {}, process, Some(client), clean)
    modifies deps`verdicts, deps.pool, deps.ipc, deps.events
    ensures deps.Valid() && deps.pool.Universe() == old(deps.pool.Universe())
    ensures Stage(before, deps.Now(), tables, {}, process, if r.Ok? then Some(client) else None, clean)
    ensures r.Ok? ==> Surfaced(deps.Now().ipc, client, atrium, epoch, sizes, r.value)
    ensures r.Err? ==> (r.error == Resources || r.error == IpcCapacity) && Clean(deps.Now().ipc, client)
  {
    hide ProgramDeps.Valid, Stage, Provided, AllProvided, Announced, Keeps, Clean, ServiceGone, SurfaceSpecs;
    var specs := SurfaceSpecs(client, atrium, sizes);
    NoneProvided(deps.Now().ipc, epoch);
    for k := 0 to |specs|
      invariant deps.Valid() && deps.pool.Universe() == old(deps.pool.Universe())
      invariant Stage(before, deps.Now(), tables, {}, process, Some(client), clean)
      invariant AllProvided(deps.Now().ipc, specs[..k], epoch)
    {
      ghost var now := deps.Now().ipc;
      SpecsInvolve(client, atrium, sizes, k);
      var provisioned := ProvisionOne(deps, specs[k], epoch, client, before, tables, process, clean);
      if provisioned.Err? {
        WithdrawSurface(deps, client, before, tables, process, clean);
        return Err(provisioned.error);
      }
      OneMoreProvided(now, deps.Now().ipc, specs, epoch, k);
    }
    assert specs[..|specs|] == specs;
    DepsIpc(deps);
    r := SurfaceCapabilities(deps.ipc, client, atrium);
    if r.Err? {
      WithdrawSurface(deps, client, before, tables, process, clean);
    }
  }

  /** All the client had so far goes. */
  method WithdrawSurface(deps: ProgramDeps, client: Handle, ghost before: World, ghost tables: set<nat>,
                         ghost process: Option<Processes.Handle>, ghost clean: bool)
    requires deps.Valid() && Stage(before, deps.Now(), tables, {}, process, Some(client), clean)
    modifies deps.pool, deps.ipc, deps.events
    ensures deps.Valid() && deps.pool.Universe() == old(deps.pool.Universe())
            && Stage(before, deps.Now(), tables, {}, process, None, clean)
    ensures Clean(deps.Now().ipc, client)
  {
    hide ProgramDeps.Valid, Stage, Clean, ServiceGone;
    ghost var now := deps.Now().ipc;
    DropClient(deps, client, before, tables, {}, process, clean);
    GoneClean(now, deps.Now().ipc, client);
  }

  lemma DepsIpc(deps: ProgramDeps)
    requires deps.Valid()
    ensures deps.ipc.Valid() && deps.pool.Valid() && deps.processes.Valid()
  {
  }

  // --- Tables, process and private pages ------------------------------------------------

  /** Page tables with every page of the image in them. */
  method OpenTables(deps: ProgramDeps, owner: nat, kernel: Option<Table>, pages: seq<LoadedPage>, ghost before: World)
    returns (tables: PageTableBuilder?, r: Result<Unit, ProgramError>)
    requires deps.Valid() && Stage(before, deps.Now(), {}, {}, None, None, true) && KernelApart(kernel, deps.pool)
    modifies deps.pool, deps.memory
    ensures deps.Valid() && deps.pool.Universe() == old(deps.pool.Universe())
    ensures tables == null ==> r.Err? && deps.Now() == old(deps.Now())
    ensures r.Ok? ==> tables.mapped.Keys == PageAddresses(pages) && forall page :: page in pages ==>
            Shows(tables.mapped, page)
    ensures tables != null ==> fresh(tables) && tables.Valid(deps.pool, deps.memory)
                               && Stage(before, deps.Now(), tables.owned, {}, None, None, true)
    ensures old(deps.pool.live).Keys <= deps.pool.live.Keys
    ensures r.Err? ==> r.error.PageTableRoot? || r.error.PageTableMap?
  {
    hide Processes.ProcessTable.Valid, IpcRegistry.Valid, EventRegistry.Valid, Schedulers.Scheduler.Valid, Stage,
         FramesApart, PageTableBuilder.Valid, PageTableBuilder.Claims, FramePool.Valid, Seed, LeafOf;
    ghost var now := deps.Now();
    PoolApart(deps.pool);
    var built := NewForOwner(deps.pool, deps.memory, owner, kernel);
    if built.Err? {
      return null, Err(PageTableRoot(built.error));
    }
    tables := built.value;
    StageTables(before, now, deps.Now(), {}, {}, None, None, true, {tables.root});
    assert {} + {tables.root} == tables.owned;
    r := MapPages(deps, tables, pages, {}, None, None, before, true);
  }

  ghost predicate KernelApart(kernel: Option<Table>, pool: FramePool)
    reads pool
  {
    RootApart(kernel, pool.Universe())
  }

  /** Map pages, whatever stage the start is at. */
  method MapPages(deps: ProgramDeps, tables: PageTableBuilder, pages: seq<LoadedPage>, ghost extra: set<nat>,
                  ghost process: Option<Processes.Handle>,
                  ghost client: Option<Handle>, ghost before: World, ghost clean: bool)
    returns (r: Result<Unit, ProgramError>)
    requires deps.Valid() && tables.Valid(deps.pool, deps.memory)
             && Stage(before, deps.Now(), tables.owned, extra, process, client, clean)
    modifies deps.pool, deps.memory, tables
    ensures deps.Valid() && tables.Valid(deps.pool, deps.memory)
            && Stage(before, deps.Now(), tables.owned, extra, process, client, clean)
    ensures deps.pool.Universe() == old(deps.pool.Universe()) && old(deps.pool.live).Keys <= deps.pool.live.Keys
            && tables.root == old(tables.root)
    ensures forall page :: page in old(tables.mapped) ==>
            page in tables.mapped && tables.mapped[page] == old(tables.mapped)[page]
    ensures r.Ok? ==> forall i :: 0 <= i < |pages| ==>
            pages[i].virtualAddress in tables.mapped && tables.mapped[pages[i].virtualAddress] == LeafOf(pages[i])
    ensures r.Ok? ==> tables.mapped.Keys == old(tables.mapped).Keys + PageAddresses(pages)
    ensures r.Err? ==> r.error.PageTableMap?
  {
    hide Processes.ProcessTable.Valid, IpcRegistry.Valid, EventRegistry.Valid, Schedulers.Scheduler.Valid, Stage,
         FramesApart, PageTableBuilder.Valid, PageTableBuilder.Claims, FramePool.Counted, LeafOf;
    ghost var now, owned, free := deps.Now(), tables.owned, deps.pool.free;
    tables.OwnedNotFree(deps.pool, deps.memory);
    var mapped := tables.MapImage(pages, deps.pool, deps.memory);
    tables.OwnedNotFree(deps.pool, deps.memory);
    GrewTook(free, now.live, deps.pool.free, deps.pool.live, owned, tables.owned);
    StageTables(before, now, deps.Now(), owned, extra, process, client, clean, tables.owned - owned);
    assert owned + (tables.owned - owned) == tables.owned;
    r := if mapped.Err? then Err(PageTableMap(mapped.error)) else Ok(Unit.Unit);
  }

  /** A running process whose space has the root and the pages of the image. */
  method Admit(deps: ProgramDeps, root: nat, entry: nat, pages: seq<LoadedPage>, ghost before: World,
               ghost tables: set<nat>)
    returns (r: Result<Unit, ProgramError>, process: Option<Processes.Handle>,
             ghost runs: seq<Processes.VirtualMapping>)
    requires deps.Valid() && Stage(before, deps.Now(), tables, {}, None, None, true)
    modifies deps.processes
    ensures deps.Valid() && Stage(before, deps.Now(), tables, {}, process, None, true)
    ensures process.Some? ==> deps.processes.IsRunning(process.value)
    ensures r.Ok? ==> process.Some? && ImageMapping.Lodged(deps.processes, process.value, root, runs)
                      && ImageMapping.Flatten(runs) == pages
    ensures r.Err? ==> r.error.ProcessFailure?
  {
    hide FramePool.Valid, Processes.ProcessTable.Valid, IpcRegistry.Valid, EventRegistry.Valid,
         Schedulers.Scheduler.Valid, Stage, FramesApart, ImageMapping.Gained;
    ghost var now := deps.Now();
    var started := deps.processes.StartPlan(entry);
    if started.Err? {
      return Err(ProcessFailure(started.error)), None, [];
    }
    process := Some(started.value);
    StageStarted(before, now, deps.Now(), tables, {}, started.value, true);
    ImageMapping.RunningHasSpace(deps.processes, started.value);
    r := BindRoot(deps, root, started.value, before, tables);
    if r.Err? {
      runs := [];
      return;
    }
    ImageMapping.RunningHasSpace(deps.processes, started.value);
    now := deps.Now();
    var mapped;
    mapped, runs := ImageMapping.MapLoadedPages(deps.processes, started.value, pages);
    StageSpace(before, now, deps.Now(), tables, {}, started.value, None, true);
    r := if mapped.Err? then Err(ProcessFailure(mapped.error)) else Ok(Unit.Unit);
  }

  ghost function SpaceNow(deps: ProgramDeps, process: Processes.Handle): Processes.Space
    requires ImageMapping.SpaceHere(deps.processes, process)
    reads deps.processes
  {
    Processes.SpaceOf(deps.processes.slots, deps.processes.spaces, process)
  }

  method BindRoot(deps: ProgramDeps, root: nat, process: Processes.Handle, ghost before: World, ghost tables: set<nat>)
      returns (r: Result<Unit, ProgramError>)
    requires deps.Valid() && Stage(before, deps.Now(), tables, {}, Some(process), None, true)
    requires deps.processes.IsRunning(process) && ImageMapping.SpaceHere(deps.processes, process)
    modifies deps.processes`spaces
    ensures deps.Valid() && Stage(before, deps.Now(), tables, {}, Some(process), None, true)
            && deps.processes.IsRunning(process)
    ensures r.Ok? ==> ImageMapping.SpaceHere(deps.processes, process)
                      && SpaceNow(deps, process) == old(SpaceNow(deps, process)).(root := Some(root))
    ensures r.Err? ==> r.error.ProcessFailure?
  {
    hide FramePool.Valid, Processes.ProcessTable.Valid, IpcRegistry.Valid, EventRegistry.Valid,
         Schedulers.Scheduler.Valid, Stage, FramesApart;
    if root == 0 || root % PAGE_SIZE != 0 {
      return Err(ProcessFailure(Processes.AddressSpaceError));
    }
    ghost var now := deps.Now();
    var bound := deps.processes.BindRoot(process, root);
    if bound.Err? {
      return Err(ProcessFailure(bound.error));
    }
    StageSpace(before, now, deps.Now(), tables, {}, process, None, true);
    r := Ok(Unit.Unit);
  }

  const STAGING_BASE: nat := 0x100_0202_0000
  const BOOTSTRAP_BASE: nat := 0x100_2100_0000

  /** A private frame of the program. */
  method TakePrivate(deps: ProgramDeps, tables: PageTableBuilder, owner: nat, ghost extra: set<nat>,
                     ghost process: Option<Processes.Handle>,
                     ghost client: Option<Handle>, ghost before: World, ghost clean: bool)
    returns (frame: Option<nat>)
    requires deps.Valid() && tables.Valid(deps.pool, deps.memory)
             && Stage(before, deps.Now(), tables.owned, extra, process, client, clean)
    modifies deps.pool
    ensures deps.Valid() && tables.Valid(deps.pool, deps.memory) && deps.pool.Universe() == old(deps.pool.Universe())
            && old(deps.pool.live).Keys <= deps.pool.live.Keys
    ensures Stage(before, deps.Now(), tables.owned, extra + Elements(Listed(frame)), process, client, clean)
    ensures frame.Some? ==> frame.value !in tables.owned && frame.value !in old(deps.pool.live)
                            && frame.value in deps.pool.live
  {
    hide Processes.ProcessTable.Valid, IpcRegistry.Valid, EventRegistry.Valid, Schedulers.Scheduler.Valid, Stage,
         FramesApart, PageTableBuilder.Valid, PageTableBuilder.Claims, FramePool.Counted;
    ghost var now := deps.Now();
    tables.OwnedNotFree(deps.pool, deps.memory);
    tables.ClaimsNow(deps.pool, deps.memory);
    var taken := deps.pool.AllocateFor(owner);
    tables.StaysValid(deps.pool, deps.memory, old(deps.memory.tables));
    if taken.Err? {
      frame := None;
      assert extra + Elements(Listed(frame)) == extra;
      return;
    }
    frame := Some(taken.value);
    assert Elements(Listed(frame)) == {taken.value};
    StageExtra(before, now, deps.Now(), tables.owned, extra, process, client, clean, {taken.value});
  }

  /** Clear a private frame; the tables are not on it. Bytes and table entries are two views of one memory. */
  method ClearPrivate(deps: ProgramDeps, tables: PageTableBuilder, frame: nat) returns (ok: bool)
    requires deps.Valid() && tables.Valid(deps.pool, deps.memory) && frame !in tables.owned
    modifies deps.memory, deps.sink`pages
    ensures tables.Valid(deps.pool, deps.memory)
    ensures ok ==> deps.sink.pages == old(deps.sink.pages)[frame := Populate.ZeroPage()]
  {
    hide PageTableBuilder.Valid, PageTableBuilder.Claims;
    tables.OwnedNotFree(deps.pool, deps.memory);
    tables.ClaimsNow(deps.pool, deps.memory);
    ok := deps.memory.Clear(frame);
    if ok {
      deps.sink.pages := deps.sink.pages[frame := Populate.ZeroPage()];
    }
    tables.StaysValid(deps.pool, deps.memory, old(deps.memory.tables));
  }

  /** The tables translate a page as asked. */
  predicate Shows(mapped: PageTables.Mappings, page: LoadedPage) {
    page.virtualAddress in mapped && mapped[page.virtualAddress] == LeafOf(page)
  }

  /** Map a private frame in the tables and in the process's space. */
  method MapPrivate(deps: ProgramDeps, tables: PageTableBuilder, process: Processes.Handle, address: nat, frame: nat,
                    flags: MappingFlags,
                    ghost extra: set<nat>, ghost client: Option<Handle>, ghost before: World, ghost clean: bool,
                        ghost runs: seq<Processes.VirtualMapping>)
    returns (r: Result<Unit, ProgramError>)
    requires deps.Valid() && tables.Valid(deps.pool, deps.memory)
             && Stage(before, deps.Now(), tables.owned, extra, Some(process), client, clean)
    requires deps.processes.IsRunning(process) && ImageMapping.Lodged(deps.processes, process, tables.root, runs)
    modifies deps.pool, deps.memory, deps.processes`spaces, tables
    ensures deps.Valid() && tables.Valid(deps.pool, deps.memory)
            && Stage(before, deps.Now(), tables.owned, extra, Some(process), client, clean)
    ensures deps.pool.Universe() == old(deps.pool.Universe()) && deps.processes.IsRunning(process)
            && tables.root == old(tables.root)
    ensures forall page :: page in old(tables.mapped) ==>
            page in tables.mapped && tables.mapped[page] == old(tables.mapped)[page]
    ensures r.Ok? ==> Shows(tables.mapped, LoadedPage(address, frame, flags))
                      && tables.mapped.Keys == old(tables.mapped).Keys + {address}
    ensures r.Ok? ==> ImageMapping.Lodged(deps.processes, process, tables.root, runs + [OnePage(address, frame, flags)])
    ensures r.Err? ==> r.error == IpcPrivateMapping || r.error == IpcPrivateProcess
  {
    hide FramePool.Valid, Processes.ProcessTable.Valid, IpcRegistry.Valid, EventRegistry.Valid,
         Schedulers.Scheduler.Valid, Stage, FramesApart, PageTableBuilder.Valid, PageTableBuilder.Claims, LeafOf,
         Processes.NewMapping;
    var page := LoadedPage(address, frame, flags);
    var mapped := MapPages(deps, tables, [page], extra, Some(process), client, before, clean);
    if mapped.Err? {
      return Err(IpcPrivateMapping);
    }
    assert Shows(tables.mapped, [page][0]) && PageAddresses([page]) == {address};
    var mapping := Processes.NewMapping(address, frame, 1, flags, ImageMapping.MAX_MAPPED_PAGES);
    if mapping.None? {
      return Err(IpcPrivateProcess);
    }
    r := AddMapping(deps, process, mapping.value, tables.root, runs, tables.owned, extra, client, before, clean);
  }

  function OnePage(address: nat, frame: nat, flags: MappingFlags): Processes.VirtualMapping {
    Processes.VirtualMapping(address, frame, 1, flags)
  }

  method AddMapping(deps: ProgramDeps, process: Processes.Handle, mapping: Processes.VirtualMapping, ghost root: nat,
                    ghost runs: seq<Processes.VirtualMapping>, ghost tables: set<nat>, ghost extra: set<nat>,
                        ghost client: Option<Handle>, ghost before: World, ghost clean: bool)
    returns (r: Result<Unit, ProgramError>)
    requires deps.Valid() && Stage(before, deps.Now(), tables, extra, Some(process), client, clean)
             && deps.processes.IsRunning(process) && Processes.MappingOk(mapping)
    requires ImageMapping.Lodged(deps.processes, process, root, runs)
    modifies deps.processes`spaces
    ensures deps.Valid() && Stage(before, deps.Now(), tables, extra, Some(process), client, clean)
            && deps.processes.IsRunning(process)
    ensures r.Ok? ==> ImageMapping.Lodged(deps.processes, process, root, runs + [mapping])
    ensures r.Err? ==> r.error == IpcPrivateProcess
  {
    hide FramePool.Valid, Processes.ProcessTable.Valid, IpcRegistry.Valid, EventRegistry.Valid,
         Schedulers.Scheduler.Valid, Stage, FramesApart, ImageMapping.Gained;
    ImageMapping.RunningHasSpace(deps.processes, process);
    ghost var now, space := deps.Now(), SpaceNow(deps, process);
    var added := deps.processes.Map(process, mapping);
    if added.Err? {
      return Err(IpcPrivateProcess);
    }
    LodgedMore(deps.processes, process, root, runs, space, mapping);
    StageSpace(before, now, deps.Now(), tables, extra, process, client, clean);
    r := Ok(Unit.Unit);
  }

  lemma LodgedMore(table: Processes.ProcessTable, process: Processes.Handle, root: nat,
                   runs: seq<Processes.VirtualMapping>, space: Processes.Space,
                   mapping: Processes.VirtualMapping)
    requires ImageMapping.SpaceHere(table, process) && space.root == Some(root)
             && ImageMapping.Gained(Processes.NoMappings(), space.mappings, runs)
    requires exists i :: Processes.MappedAt(space, Processes.SpaceOf(table.slots, table.spaces, process), i, mapping)
    ensures ImageMapping.Lodged(table, process, root, runs + [mapping])
  {
    hide ImageMapping.Gained;
    var at :| Processes.MappedAt(space, Processes.SpaceOf(table.slots, table.spaces, process), at, mapping);
    ImageMapping.GainedOne(Processes.NoMappings(), space.mappings, runs, at, mapping);
  }

  /** The private pages of a program: one to stage messages in, and one that tells it about itself. */
  method PrivatePages(deps: ProgramDeps, tables: PageTableBuilder, process: Processes.Handle, owner: nat,
                      header: Elf.Bytes,
                      ghost client: Option<Handle>, ghost before: World, ghost clean: bool,
                          ghost runs: seq<Processes.VirtualMapping>)
    returns (r: Result<Unit, ProgramError>, staging: Option<nat>, bootstrap: Option<nat>)
    requires deps.Valid() && tables.Valid(deps.pool, deps.memory)
             && Stage(before, deps.Now(), tables.owned, {}, Some(process), client, clean)
    requires deps.processes.IsRunning(process) && ImageMapping.Lodged(deps.processes, process, tables.root, runs)
    modifies deps.pool, deps.memory, deps.sink, deps.processes`spaces, tables
    ensures deps.Valid() && tables.Valid(deps.pool, deps.memory) && deps.processes.IsRunning(process)
            && tables.root == old(tables.root)
    ensures Stage(before, deps.Now(), tables.owned, Elements(Listed(staging) + Listed(bootstrap)), Some(process),
                  client, clean)
    ensures forall page :: page in old(tables.mapped) ==>
            page in tables.mapped && tables.mapped[page] == old(tables.mapped)[page]
    ensures r.Ok? ==> staging.Some? && bootstrap.Some? && Private(tables, staging, bootstrap)
                      && tables.mapped.Keys == old(tables.mapped).Keys + {STAGING_BASE, BOOTSTRAP_BASE}
    ensures r.Ok? ==> ImageMapping.Lodged(deps.processes, process, tables.root,
                                          runs + PrivateRuns(staging.value, bootstrap.value))
    ensures r.Ok? ==> Shown(old(deps.sink.pages), deps.sink.pages, staging, bootstrap, header)
    ensures r.Err? ==> r.error == Resources || r.error == IpcPrivateMapping || r.error == IpcPrivateProcess
  {
    hide ProgramDeps.Valid, Stage, PageTableBuilder.Valid, PageTableBuilder.Claims, LeafOf, ImageMapping.Lodged, Shown,
         Elements;
    staging, bootstrap := TakePair(deps, tables, process, owner, client, before, clean);
    if bootstrap.None? {
      return Err(Resources), staging, bootstrap;
    }
    var written := WritePair(deps, tables, staging.value, bootstrap.value, header);
    if !written {
      return Err(IpcPrivateMapping), staging, bootstrap;
    }
    ghost var extra := Elements(Listed(staging) + Listed(bootstrap));
    r := MapPrivate(deps, tables, process, STAGING_BASE, staging.value, DATA, extra, client, before, clean, runs);
    if r.Err? {
      return;
    }
    ghost var more := runs + [OnePage(STAGING_BASE, staging.value, DATA)];
    r := MapPrivate(deps, tables, process, BOOTSTRAP_BASE, bootstrap.value, READ_ONLY_DATA, extra, client, before,
                    clean, more);
    assert more + [OnePage(BOOTSTRAP_BASE, bootstrap.value, READ_ONLY_DATA)] == runs
           + PrivateRuns(staging.value, bootstrap.value);
  }

  function PrivateRuns(staging: nat, bootstrap: nat): seq<Processes.VirtualMapping> {
    [OnePage(STAGING_BASE, staging, DATA), OnePage(BOOTSTRAP_BASE, bootstrap, READ_ONLY_DATA)]
  }

  /** Two private frames. */
  method TakePair(deps: ProgramDeps, tables: PageTableBuilder, process: Processes.Handle, owner: nat,
                  ghost client: Option<Handle>, ghost before: World, ghost clean: bool)
    returns (staging: Option<nat>, bootstrap: Option<nat>)
    requires deps.Valid() && tables.Valid(deps.pool, deps.memory)
             && Stage(before, deps.Now(), tables.owned, {}, Some(process), client, clean)
    modifies deps.pool
    ensures deps.Valid() && tables.Valid(deps.pool, deps.memory)
    ensures Stage(before, deps.Now(), tables.owned, Elements(Listed(staging) + Listed(bootstrap)), Some(process),
                  client, clean)
    ensures bootstrap.Some? ==> staging.Some? && staging != bootstrap && staging.value !in tables.owned
                                && bootstrap.value !in tables.owned
  {
    hide ProgramDeps.Valid, Stage, PageTableBuilder.Valid, PageTableBuilder.Claims;
    staging := TakePrivate(deps, tables, owner, {}, Some(process), client, before, clean);
    assert {} + Elements(Listed(staging)) == Elements(Listed(staging)) == Elements(Listed(staging) + Listed(None));
    if staging.None? {
      return None, None;
    }
    bootstrap := TakePrivate(deps, tables, owner, Elements(Listed(staging)), Some(process), client, before, clean);
    assert Elements(Listed(staging)) + Elements(Listed(bootstrap)) == Elements(Listed(staging) + Listed(bootstrap));
  }

  /** Clear both private frames and put the header into the second. */
  method WritePair(deps: ProgramDeps, tables: PageTableBuilder, staging: nat, bootstrap: nat, header: Elf.Bytes)
      returns (ok: bool)
    requires deps.Valid() && tables.Valid(deps.pool, deps.memory) && staging !in tables.owned
             && bootstrap !in tables.owned && staging != bootstrap
    modifies deps.memory, deps.sink
    ensures tables.Valid(deps.pool, deps.memory)
    ensures ok ==> Shown(old(deps.sink.pages), deps.sink.pages, Some(staging), Some(bootstrap), header)
  {
    hide ProgramDeps.Valid, PageTableBuilder.Valid, PageTableBuilder.Claims;
    ok := ClearPrivate(deps, tables, staging);
    if !ok {
      return;
    }
    ok := ClearPrivate(deps, tables, bootstrap);
    if !ok {
      return;
    }
    var written := deps.sink.WriteBytes(bootstrap, 0, header);
    ok := written.Ok?;
    if ok {
      assert Populate.Overlaid(Populate.ZeroPage(), 0, header) == header + Populate.ZeroPage()[|header|..];
    }
  }

  /** The staging frame is zero, the bootstrap frame is the header and then zeros, and nothing else was written. */
  ghost predicate Shown(before: map<nat, Elf.Bytes>, after: map<nat, Elf.Bytes>, staging: Option<nat>,
                        bootstrap: Option<nat>, header: Elf.Bytes) {
    && staging.Some? && bootstrap.Some? && staging != bootstrap && |header| <= PAGE_SIZE
    && after == before[staging.value := Populate.ZeroPage()][bootstrap.value :=
                                                             header + Populate.ZeroPage()[|header|..]]
  }

  // --- The phases of a start ------------------------------------------------------------

  datatype Launch = Launch(slot: nat, generation: nat, entry: nat, atrium: Handle, epoch: nat, kernel: Option<Table>,
                           sizes: Sizes)

  const CLIENT_BASE: nat := 0x8000_0000
  const OWNER_BASE: nat := 100

  /** The service handle a program goes by. */
  function ClientOf(launch: Launch): Handle {
    Handle(CLIENT_BASE + launch.slot, launch.generation)
  }

  lemma StageOwned(before: World, now: World, tables: set<nat>, extra: set<nat>, process: Option<Processes.Handle>,
                   client: Option<Handle>, clean: bool)
    requires Stage(before, now, tables, extra, process, client, clean)
    ensures tables <= now.live.Keys && Apart(before, now, tables + extra) && now.tasks == before.tasks
  {
  }

  lemma IpcGrantsLive(deps: ProgramDeps)
    requires deps.Valid()
    ensures GrantsLive(deps.Now().ipc)
  {
  }

  /** Tables and a process for an image. */
  method Found(deps: ProgramDeps, launch: Launch, pages: seq<LoadedPage>, ghost before: World)
    returns (r: Result<Unit, ProgramError>, tables: PageTableBuilder?, process: Option<Processes.Handle>,
             ghost runs: seq<Processes.VirtualMapping>)
    requires deps.Valid() && before == deps.Now() && KernelApart(launch.kernel, deps.pool)
    modifies deps.pool, deps.memory, deps.processes
    ensures deps.Valid() && deps.pool.Universe() == old(deps.pool.Universe())
    ensures tables == null ==> r.Err? && deps.Now() == before
    ensures tables != null ==> fresh(tables) && tables.Valid(deps.pool, deps.memory)
                               && Stage(before, deps.Now(), tables.owned, {}, process, None, true)
    ensures process.Some? ==> deps.processes.IsRunning(process.value)
    ensures r.Ok? ==> process.Some? && tables.mapped.Keys == PageAddresses(pages) && forall page :: page in pages ==>
            Shows(tables.mapped, page)
    ensures r.Ok? ==> ImageMapping.Lodged(deps.processes, process.value, tables.root, runs)
                      && ImageMapping.Flatten(runs) == pages
    ensures r.Err? ==> r.error.PageTableRoot? || r.error.PageTableMap? || r.error.ProcessFailure?
  {
    hide ProgramDeps.Valid, Stage, PageTableBuilder.Valid, PageTableBuilder.Claims, Shows, KernelApart,
         ImageMapping.Lodged, PageAddresses;
    StageNone(deps);
    runs := [];
    tables, r := OpenTables(deps, OWNER_BASE + launch.slot, launch.kernel, pages, before);
    process := None;
    if r.Ok? {
      r, process, runs := Admit(deps, tables.root, launch.entry, pages, before, tables.owned);
    }
  }

  /** The page tables and the space of the process hold the image and the two private pages, and nothing else. */
  ghost predicate Housed(processes: Processes.ProcessTable, process: Processes.Handle, tables: PageTableBuilder,
                         pages: seq<LoadedPage>,
                         staging: Option<nat>, bootstrap: Option<nat>)
    reads processes, tables
  {
    && Private(tables, staging, bootstrap) && tables.mapped.Keys == PageAddresses(pages)
       + {STAGING_BASE, BOOTSTRAP_BASE}
    && (forall page :: page in pages ==> Shows(tables.mapped, page))
    && exists runs :: ImageMapping.Flatten(runs) == pages
                      && ImageMapping.Lodged(processes, process, tables.root,
                                             runs + PrivateRuns(staging.value, bootstrap.value))
  }

  /** Page tables and the mappings of a space hold the same pages, with the same frames and rights. */
  ghost predicate Agree(mapped: PageTables.Mappings, mappings: Processes.Mappings) {
    && (forall i: nat, k: nat :: HasPage(mappings, i, k) ==> Shows(mapped, ImageMapping.PageOf(mappings[i].value, k)))
    && (forall address :: address in mapped ==>
       exists i: nat, k: nat :: HasPage(mappings, i, k)
                                && ImageMapping.PageOf(mappings[i].value, k).virtualAddress == address)
  }

  predicate HasPage(mappings: Processes.Mappings, i: nat, k: nat) {
    i < |mappings| && mappings[i].Some? && k < mappings[i].value.pages
  }

  /** What the space of a housed process records is what its page tables translate. */
  lemma HousedAgree(processes: Processes.ProcessTable, process: Processes.Handle, tables: PageTableBuilder,
                    pages: seq<LoadedPage>,
                    staging: Option<nat>, bootstrap: Option<nat>)
    requires Housed(processes, process, tables, pages, staging, bootstrap)
    ensures ImageMapping.SpaceHere(processes, process)
            && Processes.SpaceOf(processes.slots, processes.spaces, process).root == Some(tables.root)
    ensures Agree(tables.mapped, Processes.SpaceOf(processes.slots, processes.spaces, process).mappings)
  {
    hide LeafOf, ImageMapping.Flatten;
    var private := PrivateRuns(staging.value, bootstrap.value);
    var runs :| ImageMapping.Flatten(runs) == pages
        && ImageMapping.Lodged(processes, process, tables.root, runs + private);
    var mappings := Processes.SpaceOf(processes.slots, processes.spaces, process).mappings;
    forall i: nat, k: nat | HasPage(mappings, i, k)
      ensures Shows(tables.mapped, ImageMapping.PageOf(mappings[i].value, k))
    {
      assert mappings[i].value in runs + private;
      if mappings[i].value in runs {
        ImageMapping.FlattenHas(runs, mappings[i].value, k);
      }
    }
    forall address | address in tables.mapped
      ensures exists i: nat, k: nat :: HasPage(mappings, i, k)
                                       && ImageMapping.PageOf(mappings[i].value, k).virtualAddress == address
    {
      var run, k := RunFor(runs, pages, staging.value, bootstrap.value, address);
      var i :| 0 <= i < |mappings| && mappings[i] == Some(run);
      assert HasPage(mappings, i, k);
    }
  }

  /** The run an address of a housed process lies in. */
  lemma RunFor(runs: seq<Processes.VirtualMapping>, pages: seq<LoadedPage>, staging: nat, bootstrap: nat, address: nat)
    returns (run: Processes.VirtualMapping, k: nat)
    requires ImageMapping.Flatten(runs) == pages && address in PageAddresses(pages) + {STAGING_BASE, BOOTSTRAP_BASE}
    ensures run in runs + PrivateRuns(staging, bootstrap) && k < run.pages
            && ImageMapping.PageOf(run, k).virtualAddress == address
  {
    hide ImageMapping.Flatten;
    var private := PrivateRuns(staging, bootstrap);
    if address == STAGING_BASE {
      run, k := private[0], 0;
    } else if address == BOOTSTRAP_BASE {
      run, k := private[1], 0;
    } else {
      var i :| 0 <= i < |pages| && pages[i].virtualAddress == address;
      var at;
      at, k := ImageMapping.PageStands(runs, i);
      run := runs[at];
    }
  }

  lemma {:induction false} HousedNow(processes: Processes.ProcessTable, process: Processes.Handle,
                                     tables: PageTableBuilder, pages: seq<LoadedPage>,
                  staging: Option<nat>, bootstrap: Option<nat>, runs: seq<Processes.VirtualMapping>,
                      mapped: PageTables.Mappings)
    requires Private(tables, staging, bootstrap)
             && tables.mapped.Keys == PageAddresses(pages) + {STAGING_BASE, BOOTSTRAP_BASE}
    requires forall address :: address in mapped ==>
             address in tables.mapped && tables.mapped[address] == mapped[address]
    requires forall page :: page in pages ==> Shows(mapped, page)
    requires ImageMapping.Flatten(runs) == pages
             && ImageMapping.Lodged(processes, process, tables.root, runs + PrivateRuns(staging.value, bootstrap.value))
    ensures Housed(processes, process, tables, pages, staging, bootstrap)
  {
    hide ImageMapping.Lodged, PageAddresses, LeafOf;
  }

  /** Queues and capabilities for the program; the tables stand. */
  method Surfacing(deps: ProgramDeps, launch: Launch, tables: PageTableBuilder, process: Processes.Handle,
                   ghost before: World)
    returns (r: Result<Surface, ProgramError>)
    requires deps.Valid() && tables.Valid(deps.pool, deps.memory)
             && Stage(before, deps.Now(), tables.owned, {}, Some(process), None, true)
    requires deps.Now().ipc == before.ipc
    modifies deps`verdicts, deps.pool, deps.ipc, deps.events
    ensures deps.Valid() && tables.Valid(deps.pool, deps.memory)
    ensures Stage(before, deps.Now(), tables.owned, {}, Some(process), if r.Ok? then
            Some(ClientOf(launch)) else None, Clean(before.ipc, ClientOf(launch)))
    ensures r.Ok? ==> Surfaced(deps.Now().ipc, ClientOf(launch), launch.atrium, launch.epoch, launch.sizes, r.value)
    ensures r.Err? ==> Clean(deps.Now().ipc, ClientOf(launch))
  {
    hide ProgramDeps.Valid, Stage, PageTableBuilder.Valid, PageTableBuilder.Claims, Clean, GrantsLive, FramePool.Valid,
         Processes.ProcessTable.Valid, IpcRegistry.Valid, Surfaced;
    ghost var clean := Clean(before.ipc, ClientOf(launch));
    IpcGrantsLive(deps);
    tables.ClaimsNow(deps.pool, deps.memory);
    StageClientNew(before, deps.Now(), tables.owned, {}, Some(process), ClientOf(launch));
    r := ProvisionSurface(deps, ClientOf(launch), launch.atrium, launch.epoch, launch.sizes, before, tables.owned,
                          Some(process), clean);
    StageOwned(before, deps.Now(), tables.owned, {}, Some(process), if r.Ok? then
        Some(ClientOf(launch)) else None, clean);
    DepsIpc(deps);
    tables.StaysValid(deps.pool, deps.memory, old(deps.memory.tables));
  }

  /** Queues, capabilities and private pages for the program, and how to enter it. */
  method Furnish(deps: ProgramDeps, launch: Launch, image: LoadedImage, header: Surface -> Elf.Bytes,
                 tables: PageTableBuilder, process: Processes.Handle,
                 ghost before: World, ghost runs: seq<Processes.VirtualMapping>)
    returns (r: Result<Processes.UserLaunch, ProgramError>, client: Option<Handle>, staging: Option<nat>,
             bootstrap: Option<nat>, ghost clean: bool,
             ghost surface: Surface)
    requires deps.Valid() && tables.Valid(deps.pool, deps.memory)
             && Stage(before, deps.Now(), tables.owned, {}, Some(process), None, true)
    requires deps.processes.IsRunning(process) && deps.Now().ipc == before.ipc
    requires ImageMapping.Lodged(deps.processes, process, tables.root, runs)
             && ImageMapping.Flatten(runs) == image.pages
    requires tables.mapped.Keys == PageAddresses(image.pages) && forall page :: page in image.pages ==>
             Shows(tables.mapped, page)
    modifies deps`verdicts, deps.pool, deps.memory, deps.sink, deps.processes`spaces, deps.ipc, deps.events, tables
    ensures deps.Valid() && tables.Valid(deps.pool, deps.memory) && deps.processes.IsRunning(process)
    ensures Stage(before, deps.Now(), tables.owned, Elements(Listed(staging) + Listed(bootstrap)), Some(process),
                  client, clean)
    ensures clean == Clean(before.ipc, ClientOf(launch)) && (client.Some? ==> client.value == ClientOf(launch))
    ensures client.None? ==> r.Err? && Clean(deps.Now().ipc, ClientOf(launch))
    ensures r.Ok? ==> Surfaced(deps.Now().ipc, ClientOf(launch), launch.atrium, launch.epoch, launch.sizes, surface)
    ensures r.Ok? ==> Housed(deps.processes, process, tables, image.pages, staging, bootstrap)
    ensures r.Ok? ==> Shown(old(deps.sink.pages), deps.sink.pages, staging, bootstrap, header(surface))
    ensures r.Ok? ==> staging.Some? && bootstrap.Some?
                      && r.value == Processes.UserLaunch(image.entry, image.stackTop, tables.root)
  {
    hide ProgramDeps.Valid, Stage, PageTableBuilder.Valid, PageTableBuilder.Claims, Clean, Processes.ProcessTable.Valid,
         Shown, ImageMapping.Gained, Surfaced, Shows, Private, Housed, PageAddresses, Elements;
    client, clean := Some(ClientOf(launch)), Clean(before.ipc, ClientOf(launch));
    var provisioned := Surfacing(deps, launch, tables, process, before);
    if provisioned.Err? {
      NothingListed();
      return Err(provisioned.error), None, None, None, clean,
             Surface(client.value, client.value, client.value, client.value, client.value);
    }
    surface := provisioned.value;
    var added;
    added, staging, bootstrap := PrivatePages(deps, tables, process, OWNER_BASE + launch.slot,
                                              header(provisioned.value), client, before, clean, runs);
    if added.Err? {
      return Err(added.error), client, staging, bootstrap, clean, surface;
    }
    HousedNow(deps.processes, process, tables, image.pages, staging, bootstrap, runs, old(tables.mapped));
    DepsIpc(deps);
    var entered := deps.processes.Launch(process, image.entry, image.stackTop);
    r := if entered.Err? then Err(ProcessFailure(entered.error)) else Ok(entered.value);
  }

  lemma NothingListed()
    ensures Elements(Listed(None) + Listed(None)) == {}
  {
  }

  /** The private pages are there, and only the staging page is writable. */
  ghost predicate Private(tables: PageTableBuilder, staging: Option<nat>, bootstrap: Option<nat>)
    reads tables
  {
    && staging.Some? && bootstrap.Some?
    && Shows(tables.mapped, LoadedPage(STAGING_BASE, staging.value, DATA))
    && Shows(tables.mapped, LoadedPage(BOOTSTRAP_BASE, bootstrap.value, READ_ONLY_DATA))
  }

  /** An error of a start in a free slot that only provisioning and what follows it can give. */
  predicate LateError(error: ProgramError, launch: Launch) {
    || error in {IpcCapacity, IpcPrivateMapping, IpcPrivateProcess, TaskCapacity, TaskAddressSpace, TaskLaunch}
    || (error == Resources && launch.generation != 0)
  }

  /** Everything up to the task. What was taken is returned with an error, too. */
  method Raise(deps: ProgramDeps, launch: Launch, image: LoadedImage, header: Surface -> Elf.Bytes, ghost before: World)
    returns (r: Result<Processes.UserLaunch, ProgramError>, tables: PageTableBuilder?,
             process: Option<Processes.Handle>,
             client: Option<Handle>, staging: Option<nat>, bootstrap: Option<nat>, ghost clean: bool,
                 ghost surface: Surface)
    requires deps.Valid() && before == deps.Now() && KernelApart(launch.kernel, deps.pool)
    modifies deps`verdicts, deps.pool, deps.memory, deps.sink, deps.processes, deps.ipc, deps.events
    ensures deps.Valid() && (Clean(before.ipc, ClientOf(launch)) ==> clean)
    ensures tables == null ==> r.Err? && deps.Now() == before && !LateError(r.error, launch)
    ensures tables != null ==> fresh(tables) && tables.Valid(deps.pool, deps.memory)
    ensures tables != null ==> Stage(before, deps.Now(), tables.owned, Elements(Listed(staging) + Listed(bootstrap)),
                                     process, client, clean)
    ensures process.Some? ==> deps.processes.IsRunning(process.value)
    ensures client.Some? ==> client.value == ClientOf(launch)
    ensures r.Err? && client.None? && LateError(r.error, launch) ==> Clean(deps.Now().ipc, ClientOf(launch))
    ensures r.Ok? ==> tables != null && process.Some? && client.Some? && staging.Some? && bootstrap.Some?
                      && r.value == Processes.UserLaunch(image.entry, image.stackTop, tables.root)
    ensures r.Ok? ==> Surfaced(deps.Now().ipc, ClientOf(launch), launch.atrium, launch.epoch, launch.sizes, surface)
    ensures r.Ok? ==> Housed(deps.processes, process.value, tables, image.pages, staging, bootstrap)
    ensures r.Ok? ==> Shown(old(deps.sink.pages), deps.sink.pages, staging, bootstrap, header(surface))
  {
    hide ProgramDeps.Valid, Stage, PageTableBuilder.Valid, PageTableBuilder.Claims, Clean, KernelApart, Surfaced,
         Housed, Shown, ImageMapping.Lodged, Shows, PageAddresses, Elements;
    client, staging, bootstrap, clean := None, None, None, true;
    surface := Surface(ClientOf(launch), ClientOf(launch), ClientOf(launch), ClientOf(launch), ClientOf(launch));
    NothingListed();
    var founded;
    ghost var runs;
    founded, tables, process, runs := Found(deps, launch, image.pages, before);
    if founded.Err? {
      return Err(founded.error), tables, process, None, None, None, true, surface;
    }
    if launch.generation == 0 {
      return Err(Resources), tables, process, None, None, None, true, surface;
    }
    r, client, staging, bootstrap, clean, surface :=
        Furnish(deps, launch, image, header, tables, process.value, before, runs);
  }
}

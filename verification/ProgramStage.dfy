/**
 A program start in progress: what it has taken so far, what each step adds, and what
 giving it all back leaves.
 */
module ProgramStage {
  import opened Common
  import opened HandleSlots
  import opened FramePools
  import opened PageTables
  import opened Events
  import opened Ipc
  import opened ProgramWorld
  import Processes
  import Schedulers
  import Populate

  /** The shared parts of the kernel a program start borrows. */
  class ProgramDeps {
    const pool: FramePool
    const memory: TableMemory
    const sink: Populate.PageSink
    const processes: Processes.ProcessTable
    const ipc: IpcRegistry
    const events: EventRegistry
    const scheduler: Schedulers.Scheduler
    var verdicts: seq<bool>

    constructor (pool: FramePool, memory: TableMemory, sink: Populate.PageSink, processes: Processes.ProcessTable,
                 ipc: IpcRegistry,
                 events: EventRegistry, scheduler: Schedulers.Scheduler, verdicts: seq<bool>)
      ensures this.pool == pool && this.memory == memory && this.sink == sink && this.processes == processes
              && this.ipc == ipc
      ensures this.events == events && this.scheduler == scheduler && this.verdicts == verdicts
    {
      this.pool, this.memory, this.sink, this.processes, this.ipc := pool, memory, sink, processes, ipc;
      this.events, this.scheduler, this.verdicts := events, scheduler, verdicts;
    }

    ghost predicate Valid()
      reads pool, processes, ipc, events, scheduler
    {
      pool.Valid() && processes.Valid() && ipc.Valid() && events.Valid() && scheduler.Valid() && ipc.QueuesLive(pool)
          && ipc.InOrder()
    }

    ghost function Now(): World
      reads pool, processes, ipc, events, scheduler
    {
      World(pool.live, ipc.Snap(events), ipc.queueOwner, processes.slots, processes.spaces, scheduler.tasks)
    }
  }

  /** The queue frames that have come since. */
  ghost function Queues(before: World, now: World): set<nat> {
    now.queueOwner.Keys - before.queueOwner.Keys
  }

  /** The live frames that are no queue's. */
  ghost function Standing(world: World): set<nat> {
    world.live.Keys - world.queueOwner.Keys
  }

  /** What a start took is live and no queue frame of anyone; other frames in use stayed in use. */
  ghost predicate Apart(before: World, now: World, taken: set<nat>) {
    && taken <= Standing(now) && now.queueOwner.Keys <= now.live.Keys
    && Standing(before) <= Standing(now) && taken !! Standing(before)
  }

  /** Exactly the taken frames and new queue frames are owed, and IPC has only grown by the client. */
  ghost predicate Ledger(before: World, now: World, taken: set<nat>, client: Option<Handle>) {
    && Owes(before.live, now.live, taken + Queues(before, now))
    && before.queueOwner.Keys <= now.queueOwner.Keys && before.queueOwner.Keys <= before.live.Keys
    && FramesApart(before.ipc.endpoints, before.queueOwner)
    && match client
       case None => SameIpc(before.ipc, now.ipc) && now.queueOwner == before.queueOwner
       case Some(handle) => ClientOnly(before.ipc, now.ipc, handle)
  }

  /**
   Between `before` and `now` a start has taken table frames, other frames, perhaps a
   process, and perhaps IPC for a client. If `clean`, the client had nothing before and
   all of it can be told from the rest.
   */
  ghost predicate Stage(before: World, now: World, tables: set<nat>, extra: set<nat>, process: Option<Processes.Handle>,
                        client: Option<Handle>, clean: bool) {
    && Apart(before, now, tables + extra) && StageProcess(before, now, process) && now.tasks == before.tasks
    && (clean ==> Ledger(before, now, tables + extra, client))
  }

  ghost predicate StageProcess(before: World, now: World, process: Option<Processes.Handle>) {
    match process
    case None => now.slots == before.slots && now.spaces == before.spaces
    case Some(handle) => ProcessOnly(before.slots, before.spaces, now.slots, now.spaces, handle)
  }

  lemma StageNone(deps: ProgramDeps)
    requires deps.Valid()
    ensures Stage(deps.Now(), deps.Now(), {}, {}, None, None, true)
  {
    hide FramesApart, IpcRegistry.Valid;
  }

  /** Only the live frames changed. */
  ghost predicate OnlyFrames(now: World, after: World) {
    after == now.(live := after.live)
  }

  /** `taken` came out of the free frames. */
  ghost predicate TookFrames(live: map<nat, nat>, after: map<nat, nat>, taken: set<nat>) {
    after.Keys == live.Keys + taken && taken !! live.Keys && forall f :: f in live ==> f in after && after[f] == live[f]
  }

  lemma StageExtra(before: World, now: World, after: World, tables: set<nat>, extra: set<nat>,
                   process: Option<Processes.Handle>, client: Option<Handle>,
                   clean: bool, taken: set<nat>)
    requires Stage(before, now, tables, extra, process, client, clean) && OnlyFrames(now, after)
             && TookFrames(now.live, after.live, taken)
    ensures Stage(before, after, tables, extra + taken, process, client, clean)
  {
    hide FramesApart, ClientOnly, SameIpc;
    assert tables + (extra + taken) == (tables + extra) + taken;
    LedgerTook(before, now, after, tables + extra, client, clean, taken);
  }

  lemma StageTables(before: World, now: World, after: World, tables: set<nat>, extra: set<nat>,
                    process: Option<Processes.Handle>, client: Option<Handle>,
                    clean: bool, taken: set<nat>)
    requires Stage(before, now, tables, extra, process, client, clean) && OnlyFrames(now, after)
             && TookFrames(now.live, after.live, taken)
    ensures Stage(before, after, tables + taken, extra, process, client, clean)
  {
    hide FramesApart, ClientOnly, SameIpc;
    assert (tables + taken) + extra == (tables + extra) + taken;
    LedgerTook(before, now, after, tables + extra, client, clean, taken);
  }

  lemma LedgerTook(before: World, now: World, after: World, owed: set<nat>, client: Option<Handle>, clean: bool,
                   taken: set<nat>)
    requires clean ==> Ledger(before, now, owed, client)
    requires OnlyFrames(now, after) && TookFrames(now.live, after.live, taken)
    ensures clean ==> Ledger(before, after, owed + taken, client)
  {
    hide FramesApart, ClientOnly, SameIpc;
    if clean {
      OwesTaken(before.live, now.live, after.live, owed + Queues(before, now), taken);
      assert owed + Queues(before, now) + taken == (owed + taken) + Queues(before, after);
    }
  }

  /** A builder that grew took its new frames from the pool. */
  lemma GrewTook(free: set<nat>, live: map<nat, nat>, free': set<nat>, live': map<nat, nat>, owned: set<nat>,
                 owned': set<nat>)
    requires free !! live.Keys && free' !! live'.Keys && free + live.Keys == free' + live'.Keys
    requires owned <= owned' <= owned + free && free' == free - owned' && owned <= live.Keys && owned' <= live'.Keys
    requires forall f :: f in live ==> f in live' && live'[f] == live[f]
    ensures TookFrames(live, live', owned' - owned)
  {
  }

  // --- Giving back --------------------------------------------------------------------

  /** The client's service is gone: IPC is as before, and so are the queue frames. */
  lemma StageClientGone(before: World, now: World, after: World, taken: set<nat>, client: Handle)
    requires Ledger(before, now, taken, Some(client)) && Apart(before, now, taken)
             && ServiceGone(now.ipc, after.ipc, client)
    requires FramesApart(after.ipc.endpoints, after.queueOwner) && after.queueOwner.Keys <= now.queueOwner.Keys
    requires after.live == now.live - (now.queueOwner.Keys - after.queueOwner.Keys)
    ensures Ledger(before, after, taken, None)
  {
    hide FramesApart, ServiceGone, ClientOnly, SameIpc;
    ClientGone(before.ipc, now.ipc, after.ipc, client);
    SameIpcEndpoints(before.ipc, after.ipc);
    SameQueues(before.ipc.endpoints, after.ipc.endpoints, before.queueOwner, after.queueOwner);
    OwesReturned(before.live, now.live, taken + Queues(before, now), Queues(before, now));
    assert taken + Queues(before, now) - Queues(before, now) == taken + Queues(before, after);
  }

  lemma SameIpcEndpoints(before: Snapshot, after: Snapshot)
    requires SameIpc(before, after)
    ensures forall h :: Live(after.endpoints, h) <==> Live(before.endpoints, h)
    ensures forall h :: Live(before.endpoints, h) ==> At(after.endpoints, h) == At(before.endpoints, h)
  {
  }

  /** Returning the rest leaves exactly what was there. */
  lemma AllReturned(before: World, now: World, tables: set<nat>, extra: set<nat>)
    requires Ledger(before, now, tables + extra, None)
    ensures now.live - tables - extra == before.live && SameIpc(before.ipc, now.ipc)
            && now.queueOwner == before.queueOwner
  {
    hide SameIpc, FramesApart;
    assert Queues(before, now) == {};
  }

  lemma StageProcessGone(before: World, now: World, process: Option<Processes.Handle>, slots: seq<Processes.Process>,
                         spaces: seq<Processes.Space>)
    requires StageProcess(before, now, process)
    requires process.None? ==> slots == now.slots && spaces == now.spaces
    requires process.Some? ==> Processes.Vacated(now.slots, now.spaces, slots, spaces, process.value)
    ensures SameProcesses(before.slots, before.spaces, slots, spaces)
  {
    if process.Some? {
      ProcessGone(before.slots, before.spaces, now.slots, now.spaces, slots, spaces, process.value);
    }
  }

  // --- Steps ----------------------------------------------------------------------

  /** A process was started. */
  lemma StageStarted(before: World, now: World, after: World, tables: set<nat>, extra: set<nat>,
                     process: Processes.Handle, clean: bool)
    requires Stage(before, now, tables, extra, None, None, clean)
             && after == now.(slots := after.slots, spaces := after.spaces)
    requires Processes.Started(now.slots, now.spaces, after.slots, after.spaces, process)
    ensures Stage(before, after, tables, extra, Some(process), None, clean)
  {
    hide FramesApart, SameIpc, Owes;
  }

  /** The space of the process changed. */
  lemma StageSpace(before: World, now: World, after: World, tables: set<nat>, extra: set<nat>,
                   process: Processes.Handle, client: Option<Handle>, clean: bool)
    requires Stage(before, now, tables, extra, Some(process), client, clean) && after == now.(spaces := after.spaces)
    requires process.slot < |now.slots| && now.slots[process.slot].space.Some?
             && now.slots[process.slot].space.value.slot < |now.spaces|
    requires |after.spaces| == |now.spaces|
    requires var s := now.slots[process.slot].space.value.slot; after.spaces == now.spaces[s := after.spaces[s]]
    ensures Stage(before, after, tables, extra, Some(process), client, clean)
  {
    hide FramesApart, ClientOnly, SameIpc, Owes;
  }

  /** A client is about to get IPC; it is told from the others if it has none yet. */
  lemma StageClientNew(before: World, now: World, tables: set<nat>, extra: set<nat>, process: Option<Processes.Handle>,
                       client: Handle)
    requires Stage(before, now, tables, extra, process, None, true) && GrantsLive(now.ipc) && now.ipc == before.ipc
    ensures Stage(before, now, tables, extra, process, Some(client), Clean(before.ipc, client))
  {
    hide FramesApart, Owes;
    if Clean(before.ipc, client) {
      ClientNotYet(before.ipc, client);
    }
  }

  /** An endpoint with queue frames was created for the client. */
  lemma StageEndpoint(before: World, now: World, after: World, tables: set<nat>, extra: set<nat>,
                      process: Option<Processes.Handle>, client: Handle,
                      clean: bool, frames: set<nat>)
    requires Stage(before, now, tables, extra, process, Some(client), clean)
    requires after == now.(live := after.live, ipc := after.ipc, queueOwner := after.queueOwner)
    requires TookFrames(now.live, after.live, frames) && after.queueOwner.Keys == now.queueOwner.Keys + frames
    requires clean ==> ClientOnly(before.ipc, after.ipc, client)
    ensures Stage(before, after, tables, extra, process, Some(client), clean)
  {
    hide FramesApart, ClientOnly;
    if clean {
      OwesTaken(before.live, now.live, after.live, tables + extra + Queues(before, now), frames);
      assert Queues(before, after) == Queues(before, now) + frames;
      assert tables + extra + Queues(before, now) + frames == tables + extra + Queues(before, after);
    }
  }

  /** Only IPC changed, and not beyond the client. */
  lemma StageIpc(before: World, now: World, after: World, tables: set<nat>, extra: set<nat>,
                 process: Option<Processes.Handle>, client: Handle, clean: bool)
    requires Stage(before, now, tables, extra, process, Some(client), clean) && after == now.(ipc := after.ipc)
    requires clean ==> ClientOnly(before.ipc, after.ipc, client)
    ensures Stage(before, after, tables, extra, process, Some(client), clean)
  {
    hide FramesApart, ClientOnly, Owes;
  }

  /** One of the client's endpoints was taken down again, and its queue frames went back. */
  lemma StageEndpointGone(before: World, now: World, after: World, tables: set<nat>, extra: set<nat>,
                          process: Option<Processes.Handle>, client: Handle, clean: bool)
    requires Stage(before, now, tables, extra, process, Some(client), clean)
    requires after == now.(live := after.live, ipc := after.ipc, queueOwner := after.queueOwner)
    requires after.queueOwner.Keys <= now.queueOwner.Keys
             && after.live == now.live - (now.queueOwner.Keys - after.queueOwner.Keys)
    requires after.queueOwner.Keys <= after.live.Keys && FramesApart(after.ipc.endpoints, after.queueOwner)
    requires clean ==> ClientOnly(before.ipc, after.ipc, client)
    ensures Stage(before, after, tables, extra, process, Some(client), clean)
  {
    hide FramesApart, Clean, OnlyClients, GrantsLive, Keeps;
    var returned := now.queueOwner.Keys - after.queueOwner.Keys;
    if clean {
      QueuesKept(before.ipc, after.ipc, before.queueOwner, after.queueOwner);
      OwesReturned(before.live, now.live, tables + extra + Queues(before, now), returned);
      assert tables + extra + Queues(before, now) - returned == tables + extra + Queues(before, after);
    }
  }
}

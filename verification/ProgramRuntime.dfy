/**
 Starting and stopping programs: a transaction over frames, page tables, processes, IPC
 and tasks, with everything taken back when a step fails or the program ends.
 */
module ProgramRuntimes {
  import opened Common
  import opened HandleSlots
  import opened FramePools
  import opened PageTables
  import opened Events
  import opened Ipc
  import opened Loader
  import opened ProgramWorld
  import opened ProgramStage
  import opened ProgramSteps
  import Processes
  import Schedulers
  import SchedulerWords
  import Elf
  import ImageMapping

  const MAX_PROGRAMS: nat := 8

  datatype ProgramExit = Exited | Faulted | Stopped

  /** What a program holds. */
  datatype ProgramSlot = ProgramSlot(generation: nat, client: Option<Handle>, staging: Option<nat>,
                                     bootstrap: Option<nat>,
                                     process: Option<Processes.Handle>, task: Option<Schedulers.Handle>,
                                     image: Option<seq<LoadedPage>>, table: Option<seq<nat>>)

  function NoProgram(generation: nat): ProgramSlot {
    ProgramSlot(generation, None, None, None, None, None, None, None)
  }

  /** A slot holds a whole program or nothing. */
  predicate Whole(program: ProgramSlot) {
    if program.task.Some? then
      program.client.Some? && program.staging.Some? && program.bootstrap.Some? && program.process.Some?
          && program.image.Some? && program.table.Some?
    else
      program == NoProgram(program.generation)
  }

  /** A program without IPC, frames and task. */
  function Emptied(program: ProgramSlot): ProgramSlot {
    NoProgram(program.generation).(process := program.process)
  }

  function PagesIn(program: ProgramSlot): seq<LoadedPage> {
    if program.image.Some? then program.image.value else []
  }

  function TablesIn(program: ProgramSlot): seq<nat> {
    if program.table.Some? then program.table.value else []
  }

  ghost function Frames(program: ProgramSlot): set<nat> {
    Elements(Listed(program.staging) + Listed(program.bootstrap)) + Elements(TablesIn(program))
        + ImageFrames(PagesIn(program))
  }

  /** Every program has live frames of its own. */
  ghost predicate OwnedBy(slots: seq<ProgramSlot>, world: World) {
    && (forall i :: 0 <= i < |slots| ==> Frames(slots[i]) <= Standing(world))
    && (forall i, j :: 0 <= i < j < |slots| ==> Frames(slots[i]) !! Frames(slots[j]))
  }

  /** A process that can be reclaimed, at the latest once it has exited. */
  predicate Reclaimable(slots: seq<Processes.Process>, process: Processes.Handle) {
    && process.slot < |slots| && slots[process.slot].generation == process.generation
    && (slots[process.slot].state == Processes.Running || slots[process.slot].state.Exited?
       || slots[process.slot].state.Faulted?)
  }

  /** The programs hold processes of their own that can be reclaimed. */
  ghost predicate Held(slots: seq<ProgramSlot>, processes: seq<Processes.Process>) {
    && (forall i :: 0 <= i < |slots| && slots[i].process.Some? ==> Reclaimable(processes, slots[i].process.value))
    && (forall i, j :: 0 <= i < j < |slots| && slots[i].process.Some? ==> slots[i].process != slots[j].process)
  }

  /** A process that exits or faults is still there to be reclaimed. */
  lemma HeldThroughEnd(slots: seq<ProgramSlot>, processes: seq<Processes.Process>, handle: Processes.Handle,
                       state: Processes.ProcessState)
    requires Held(slots, processes) && handle.slot < |processes| && (state.Exited? || state.Faulted?)
    ensures Held(slots, processes[handle.slot := processes[handle.slot].(state := state)])
  {
  }

  /** Reclaiming a process leaves the programs theirs exactly when no program holds it. */
  lemma HeldThroughReclaim(slots: seq<ProgramSlot>, processes: seq<Processes.Process>, spaces: seq<Processes.Space>,
                           processes': seq<Processes.Process>, spaces': seq<Processes.Space>, handle: Processes.Handle)
    requires Held(slots, processes) && Reclaimable(processes, handle)
             && Processes.Vacated(processes, spaces, processes', spaces', handle)
    ensures Held(slots, processes') <==> forall i :: 0 <= i < |slots| ==> slots[i].process != Some(handle)
  {
  }

  /** Processes that came and went in vacant slots are nobody's. */
  lemma HeldSame(slots: seq<ProgramSlot>, processes: seq<Processes.Process>, spaces: seq<Processes.Space>,
                 processes': seq<Processes.Process>, spaces': seq<Processes.Space>)
    requires SameProcesses(processes, spaces, processes', spaces')
    ensures Held(slots, processes) ==> Held(slots, processes')
  {
  }

  /** A program with a process in a vacant slot has come. */
  lemma {:induction false} HeldStarted(slots: seq<ProgramSlot>, slot: nat, program: ProgramSlot,
                                       processes: seq<Processes.Process>, spaces: seq<Processes.Space>,
                                       processes': seq<Processes.Process>, spaces': seq<Processes.Space>)
    requires slot < |slots| && program.process.Some?
    requires ProcessOnly(processes, spaces, processes', spaces', program.process.value)
             && Reclaimable(processes', program.process.value)
    ensures Held(slots, processes) && slots[slot].process.None? ==> Held(slots[slot := program], processes')
  {
  }

  /** The process of a program has ended, and the program holds it no more. */
  lemma {:induction false} HeldEnded(slots: seq<ProgramSlot>, slot: nat, processes: seq<Processes.Process>,
                                     spaces: seq<Processes.Space>,
                                     processes': seq<Processes.Process>, spaces': seq<Processes.Space>,
                                         process: Processes.Handle)
    requires Held(slots, processes) && slot < |slots| && slots[slot].process == Some(process)
    requires Processes.Vacated(processes, spaces, processes', spaces', process)
    ensures forall program: ProgramSlot :: program.process.None? ==> Held(slots[slot := program], processes')
  {
    assert Reclaimable(processes, process);
  }

  lemma {:induction false} EndHeld(slots: seq<ProgramSlot>, slot: nat, now: World, after: World,
                                   process: Processes.Handle)
    requires slot < |slots| && slots[slot].process == Some(process)
    requires Reclaimable(now.slots, process) ==>
             Processes.Vacated(now.slots, now.spaces, after.slots, after.spaces, process)
    ensures Held(slots, now.slots) ==> Reclaimable(now.slots, process)
                                       && forall program: ProgramSlot :: program.process.None? ==>
                                         Held(slots[slot := program], after.slots)
  {
    if Held(slots, now.slots) {
      HeldEnded(slots, slot, now.slots, now.spaces, after.slots, after.spaces, process);
    }
  }

  /** One task has come into a vacant slot. */
  ghost predicate TaskOnly(tasks: seq<Schedulers.Task>, tasks': seq<Schedulers.Task>, task: Schedulers.Handle) {
    && task.slot < |tasks| == |tasks'| && tasks[task.slot].word.state == SchedulerWords.Vacant
    && tasks' == tasks[task.slot := tasks'[task.slot]] && tasks'[task.slot].word.generation == task.generation
  }

  /** Since `before` exactly this program has come: its frames and queues, its process, its IPC and its task. */
  ghost predicate Holds(before: World, now: World, program: ProgramSlot) {
    && program.client.Some? && program.process.Some? && program.task.Some?
    && Apart(before, now, Frames(program)) && Ledger(before, now, Frames(program), program.client)
    && ProcessOnly(before.slots, before.spaces, now.slots, now.spaces, program.process.value)
    && Reclaimable(now.slots, program.process.value)
    && TaskOnly(before.tasks, now.tasks, program.task.value)
  }

  // --- What the end of a program does ------------------------------------------------

  /** The program's IPC and frames are gone, and nothing else. */
  ghost predicate Freed(now: World, after: World, program: ProgramSlot) {
    match program.client
    case None => after.ipc == now.ipc && after.queueOwner == now.queueOwner && after.live == now.live - Frames(program)
    case Some(client) =>
      && ServiceGone(now.ipc, after.ipc, client) && FramesApart(after.ipc.endpoints, after.queueOwner)
      && after.queueOwner.Keys <= now.queueOwner.Keys
      && after.live == now.live - (now.queueOwner.Keys - after.queueOwner.Keys) - Frames(program)
  }

  /** The process is vacated if it can be; no other is touched. */
  ghost predicate ProcessEnded(now: World, after: World, process: Processes.Handle) {
    if Reclaimable(now.slots, process) then Processes.Vacated(now.slots, now.spaces, after.slots, after.spaces, process)
    else after.slots == now.slots && after.spaces == now.spaces
  }

  /** A task slot is vacant again. */
  ghost predicate TaskGone(tasks: seq<Schedulers.Task>, tasks': seq<Schedulers.Task>, task: Schedulers.Handle) {
    task.slot < |tasks| == |tasks'| && tasks' == tasks[task.slot := tasks'[task.slot]]
        && tasks'[task.slot].word.state == SchedulerWords.Vacant
  }

  /** All a program held is gone, and nothing else. */
  ghost predicate Ended(now: World, after: World, program: ProgramSlot) {
    && program.process.Some? && program.task.Some?
    && Freed(now, after, program) && ProcessEnded(now, after, program.process.value)
    && TaskGone(now.tasks, after.tasks, program.task.value)
  }

  /** The end of a program that came after `before` restores `before`. */
  lemma EndRestores(before: World, now: World, after: World, program: ProgramSlot)
    requires Holds(before, now, program) && Ended(now, after, program)
    ensures Restored(before, after)
  {
    hide Ledger, ServiceGone, FramesApart, SameIpc, Frames;
    var queues := now.queueOwner.Keys - after.queueOwner.Keys;
    var middle := after.(live := now.live - queues);
    StageClientGone(before, now, middle, Frames(program), program.client.value);
    assert Frames(program) + {} == Frames(program);
    AllReturned(before, middle, Frames(program), {});
    ProcessGone(before.slots, before.spaces, now.slots, now.spaces, after.slots, after.spaces, program.process.value);
  }

  lemma NoFrames(program: ProgramSlot)
    ensures Frames(Emptied(program)) == {}
  {
  }

  lemma FreedStanding(now: World, after: World, program: ProgramSlot)
    requires Freed(now, after, program) && Frames(program) <= Standing(now)
    ensures Standing(now) - Frames(program) <= Standing(after)
  {
    hide ServiceGone, FramesApart, Frames;
  }

  /** The other programs keep their frames. */
  lemma {:induction false} OwnedAfter(slots: seq<ProgramSlot>, now: World, after: World, slot: nat)
    requires OwnedBy(slots, now) && slot < |slots| && Freed(now, after, slots[slot])
    ensures OwnedBy(slots[slot := Emptied(slots[slot])], after)
  {
    hide Freed, Frames;
    NoFrames(slots[slot]);
    FreedStanding(now, after, slots[slot]);
    forall i | 0 <= i < |slots| && i != slot
      ensures Frames(slots[i]) <= Standing(after)
    {
      assert Frames(slots[i]) !! Frames(slots[slot]);
    }
  }

  /** How a program ended, told by its process. */
  function ExitOf(slots: seq<Processes.Process>, process: Processes.Handle): ProgramExit {
    if process.slot >= |slots| || slots[process.slot].generation != process.generation then Faulted
    else match slots[process.slot].state
      case Exited(_) => Exited
      case Faulted(_) => Faulted
      case _ => Stopped
  }

  /** The task has run to its end. */
  predicate RanOut(tasks: seq<Schedulers.Task>, task: Schedulers.Handle) {
    task.slot < |tasks| && tasks[task.slot].word.generation == task.generation
        && tasks[task.slot].word.state == SchedulerWords.Completed
  }

  predicate Occupied(tasks: seq<Schedulers.Task>, task: Schedulers.Handle) {
    task.slot < |tasks| && tasks[task.slot].word.generation == task.generation
        && tasks[task.slot].word.state != SchedulerWords.Vacant
  }

  /** A task was told to stop; if it was not running it has run out already. */
  ghost predicate Halting(tasks: seq<Schedulers.Task>, tasks': seq<Schedulers.Task>, task: Schedulers.Handle) {
    && Occupied(tasks, task) && |tasks'| == |tasks| && tasks' == tasks[task.slot := tasks'[task.slot]]
    && Occupied(tasks', task)
    && (tasks[task.slot].word.state in {SchedulerWords.Runnable, SchedulerWords.Blocked, SchedulerWords.Completed} ==>
       RanOut(tasks', task))
    && (tasks[task.slot].word.state in {SchedulerWords.Running, SchedulerWords.Stopping} ==>
       tasks'[task.slot].word.state == SchedulerWords.Stopping)
  }

  /** End a process that still runs, then vacate its slot. */
  method EndProcess(processes: Processes.ProcessTable, process: Processes.Handle)
      returns (exit: ProgramExit, r: Result<Unit, Processes.ProcessError>)
    requires processes.Valid()
    modifies processes
    ensures processes.Valid() && exit == ExitOf(old(processes.slots), process)
    ensures r.Ok? <==> Reclaimable(old(processes.slots), process)
    ensures r.Ok? ==> Processes.Vacated(old(processes.slots), old(processes.spaces), processes.slots, processes.spaces,
                                        process)
    ensures r.Err? ==> processes.slots == old(processes.slots) && processes.spaces == old(processes.spaces)
  {
    hide Processes.ProcessTable.Valid;
    var forced := processes.IsRunning(process);
    if forced {
      var _ := processes.Exit(process, 0xff);
    }
    var terminal := if processes.Current(process) then processes.slots[process.slot].state else Processes.Faulted(0xff);
    r := processes.Reclaim(process);
    exit := if terminal.Exited? && !forced then Exited else if terminal.Faulted? then Faulted else Stopped;
  }

  /** Destroy the IPC of a program and return its frames. */
  method FreeProgram(deps: ProgramDeps, program: ProgramSlot)
    requires deps.Valid() && Frames(program) <= Standing(deps.Now())
    modifies deps.pool, deps.ipc, deps.events
    ensures deps.Valid() && Freed(old(deps.Now()), deps.Now(), program)
  {
    hide FramePool.Valid, Processes.ProcessTable.Valid, IpcRegistry.Valid, EventRegistry.Valid,
         Schedulers.Scheduler.Valid, ServiceGone, FramesApart, Elements;
    ghost var now := deps.Now();
    if program.client.Some? {
      deps.ipc.DestroyService(program.client.value, deps.events, deps.pool);
    }
    ReleaseEach(deps.pool, Listed(program.staging) + Listed(program.bootstrap));
    ReleaseEach(deps.pool, TablesIn(program));
    ReleaseEach(deps.pool, FramesOf(PagesIn(program)));
    FreedFrames(now.live, now.queueOwner.Keys - deps.ipc.queueOwner.Keys, deps.pool.live, program);
  }

  class ProgramRuntime {
    var slots: seq<ProgramSlot>

    /** A slot holding a task also holds its process, image, tables, private pages and client. */
    predicate AllWhole()
      reads this
    {
      |slots| == MAX_PROGRAMS && forall i :: 0 <= i < |slots| ==> Whole(slots[i])
    }

    /** The frames of the programs are theirs. */
    ghost predicate Valid(deps: ProgramDeps)
      reads this, deps.pool, deps.processes, deps.ipc, deps.events, deps.scheduler
    {
      |slots| == MAX_PROGRAMS && deps.Valid() && OwnedBy(slots, deps.Now())
    }

    constructor ()
      ensures AllWhole() && forall i :: 0 <= i < |slots| ==> slots[i] == NoProgram(0)
    {
      slots := seq(MAX_PROGRAMS, _ => NoProgram(0));
    }

    /** Give back the IPC and the frames of a program. */
    method Release(deps: ProgramDeps, slot: nat)
      requires Valid(deps) && slot < |slots|
      modifies this, deps.pool, deps.ipc, deps.events
      ensures Valid(deps) && slots == old(slots)[slot := Emptied(old(slots)[slot])]
      ensures Freed(old(deps.Now()), deps.Now(), old(slots)[slot])
    {
      hide ProgramDeps.Valid, OwnedBy, Freed, Frames;
      ghost var now := deps.Now();
      OwnedFramesOf(slots, now, slot);
      FreeProgram(deps, slots[slot]);
      OwnedAfter(slots, now, deps.Now(), slot);
      slots := slots[slot := Emptied(slots[slot])];
    }

    predicate Available(slot: nat)
      reads this
    {
      slot < |slots| && slots[slot].task.None?
    }

    /** Every slot holds a whole program or nothing, and the processes are the programs' own. */
    ghost predicate Secure(deps: ProgramDeps)
      reads this, deps.processes
    {
      AllWhole() && Held(slots, deps.processes.slots)
    }

    /**
     Start a program from an image, or take everything back. A program whose client had
     no IPC before is all that has come after a success; after a failure all is as it was
     before the image was loaded. From provisioning on, a failure restores everything
     exactly for such a client.
     */
    method Start(deps: ProgramDeps, launch: Launch, image: LoadedImage, header: Surface -> Elf.Bytes)
      returns (r: Result<Unit, ProgramError>, ghost space: PageTableBuilder?, ghost surface: Surface)
      requires Valid(deps) && KernelApart(launch.kernel, deps.pool)
               && ImageApart(slots, deps.Now(), ImageFrames(image.pages))
      modifies this, deps`verdicts, deps.pool, deps.memory, deps.sink, deps.processes, deps.ipc, deps.events,
               deps.scheduler`tasks, image
      ensures Valid(deps) && (old(AllWhole()) ==> AllWhole()) && (old(Secure(deps)) ==> Secure(deps))
      ensures !old(Available(launch.slot)) ==> r == Err(TaskCapacity)
      ensures r.Err? ==> slots == old(slots)
      ensures r.Err? && Clean(old(deps.Now()).ipc, ClientOf(launch)) ==>
              Restored(Unloaded(old(deps.Now()), ImageFrames(old(image.pages))), deps.Now())
      ensures r.Err? && old(Available(launch.slot)) && LateError(r.error, launch)
              && Restored(Unloaded(old(deps.Now()), ImageFrames(old(image.pages))), deps.Now()) ==>
                Clean(old(deps.Now()).ipc, ClientOf(launch))
      ensures r.Ok? ==> Filled(old(slots), slots, launch, old(image.pages))
                        && deps.processes.IsRunning(slots[launch.slot].process.value)
      ensures r.Ok? ==> Fresh(deps.scheduler.tasks, slots[launch.slot].task.value, slots[launch.slot].process.value)
      ensures r.Ok? && Clean(old(deps.Now()).ipc, ClientOf(launch)) ==>
                Holds(Unloaded(old(deps.Now()), ImageFrames(old(image.pages))), deps.Now(), slots[launch.slot])
      ensures r.Ok? ==> space != null && space.Valid(deps.pool, deps.memory)
                        && Equipped(deps, space, launch, slots[launch.slot], surface)
      ensures r.Ok? ==> Shown(old(deps.sink.pages), deps.sink.pages, slots[launch.slot].staging,
                              slots[launch.slot].bootstrap, header(surface))
    {
      hide ProgramDeps.Valid, PageTableBuilder.Valid, Stage, OwnedBy, Frames, Clean, KernelApart, Restored, Holds,
           ImageFrames, ImageApart, TaskOnly, FramesApart, Elements, Distinct, FramePool.Valid, Surfaced, Housed, Shown,
           Held, ProcessOnly, SameProcesses, Agree;
      ghost var before, frames := deps.Now(), ImageFrames(image.pages);
      ImageStanding(slots, before, frames);
      space, surface := null, NoSurface();
      if !Available(launch.slot) {
        DropImage(deps, image);
        OwnedRolledBack(slots, before, deps.Now(), frames);
        return Err(TaskCapacity), null, surface;
      }
      var raised, tables, process, client, staging, bootstrap;
      ghost var clean;
      raised, tables, process, client, staging, bootstrap, clean, surface := Raise(deps, launch, image, header, before);
      if tables == null {
        DropImage(deps, image);
        OwnedRolledBack(slots, before, deps.Now(), frames);
        return Err(ErrorOf(raised)), null, surface;
      }
      tables.OwnedNotFree(deps.pool, deps.memory);
      ghost var now := deps.Now();
      StageOwned(before, now, tables.owned, Elements(Listed(staging) + Listed(bootstrap)), process, client, clean);
      var task: Result<Schedulers.Handle, ProgramError> := Err(ErrorOf(raised));
      if raised.Ok? {
        task := SpawnTask(deps, process.value, raised.value.root);
      }
      if task.Err? {
        Abandon(deps, slots, launch, process, tables, image, client, staging, bootstrap, before, clean, task.error);
        HeldSame(slots, before.slots, before.spaces, deps.processes.slots, deps.processes.spaces);
        return Err(task.error), null, surface;
      }
      var program := ProgramSlot(launch.generation, client, staging, bootstrap, process, Some(task.value),
                                 Some(image.pages), Some(tables.frames));
      Settled(slots, before, now, deps.Now(), launch.slot, program, tables.owned, frames, clean);
      HousedAgree(deps.processes, process.value, tables, image.pages, staging, bootstrap);
      slots := slots[launch.slot := program];
      r, space := Ok(Unit.Unit), tables;
    }

    /** End the process of a program and give everything back. */
    method EndProgram(deps: ProgramDeps, slot: nat) returns (exit: ProgramExit)
      requires Valid(deps) && slot < |slots| && slots[slot].process.Some?
      modifies this, deps.pool, deps.processes, deps.ipc, deps.events
      ensures Valid(deps) && slots == old(slots)[slot := NoProgram(old(slots)[slot].generation)]
      ensures Freed(old(deps.Now()), deps.Now(), old(slots)[slot])
              && ProcessEnded(old(deps.Now()), deps.Now(), old(slots)[slot].process.value)
      ensures exit == ExitOf(old(deps.processes.slots), old(slots)[slot].process.value)
      ensures old(Held(slots, deps.processes.slots)) ==> Held(slots, deps.processes.slots)
    {
      hide FramePool.Valid, Processes.ProcessTable.Valid, IpcRegistry.Valid, EventRegistry.Valid,
           Schedulers.Scheduler.Valid, ServiceGone, FramesApart, OwnedBy, Frames, Held, Reclaimable;
      var program := slots[slot];
      ghost var now := deps.Now();
      slots := slots[slot := program.(process := None)];
      var ended;
      exit, ended := EndProcess(deps.processes, program.process.value);
      EndHeld(old(slots), slot, now, deps.Now(), program.process.value);
      OwnedSame(old(slots), slot, program.(process := None), now, deps.Now());
      Release(deps, slot);
    }

    /** Reclaim a program whose task has completed. */
    method Reap(deps: ProgramDeps, slot: nat) returns (r: Result<Option<(nat, ProgramExit)>, ProgramError>)
      requires Valid(deps)
      modifies this, deps.pool, deps.processes, deps.ipc, deps.events, deps.scheduler`tasks
      ensures Valid(deps) && (old(AllWhole()) ==> AllWhole()) && (old(Secure(deps)) ==> Secure(deps))
      ensures r == Ok(None) <==> !old(Finished(deps, slot))
      ensures r == Ok(None) ==> slots == old(slots) && deps.Now() == old(deps.Now())
      ensures old(Finished(deps, slot)) && old(slots)[slot].process.Some? ==>
                && r == Ok(Some((old(slots)[slot].generation,
                                 ExitOf(old(deps.processes.slots), old(slots)[slot].process.value))))
                && slots == old(slots)[slot := NoProgram(old(slots)[slot].generation)]
                && Ended(old(deps.Now()), deps.Now(), old(slots)[slot])
      ensures old(Finished(deps, slot)) && old(slots)[slot].process.None? ==>
                r == Ok(Some((old(slots)[slot].generation, Stopped))) && slots == old(slots)
                    && deps.Now() == old(deps.Now()).(tasks := deps.Now().tasks)
    {
      hide FramePool.Valid, Processes.ProcessTable.Valid, IpcRegistry.Valid, EventRegistry.Valid, ServiceGone,
           FramesApart, OwnedBy, Frames;
      if !Finished(deps, slot) {
        return Ok(None);
      }
      var program := slots[slot];
      ghost var now := deps.Now();
      var reclaimed := deps.scheduler.ReclaimCompleted(program.task.value);
      if !reclaimed {
        return Err(TaskStop);
      }
      OwnedSame(slots, slot, program, now, deps.Now());
      assert slots[slot := program] == slots;
      if program.process.None? {
        return Ok(Some((program.generation, Stopped)));
      }
      var exit := EndProgram(deps, slot);
      r := Ok(Some((program.generation, exit)));
    }

    /** Ask a program to stop. */
    method RequestStop(deps: ProgramDeps, slot: nat) returns (r: Result<Unit, ProgramError>)
      requires Valid(deps)
      modifies deps.scheduler`tasks
      ensures Valid(deps) && (old(Secure(deps)) ==> Secure(deps))
      ensures r.Ok? <==> slot < |slots| && slots[slot].task.Some?
                         && Occupied(old(deps.scheduler.tasks), slots[slot].task.value)
      ensures r.Ok? ==> Halting(old(deps.scheduler.tasks), deps.scheduler.tasks, slots[slot].task.value)
      ensures r.Err? ==> r.error == TaskStop && deps.scheduler.tasks == old(deps.scheduler.tasks)
    {
      hide FramePool.Valid, Processes.ProcessTable.Valid, IpcRegistry.Valid, EventRegistry.Valid, FramesApart, Frames;
      if slot >= |slots| || slots[slot].task.None? {
        return Err(TaskStop);
      }
      var ok := deps.scheduler.RequestStop(slots[slot].task.value);
      r := if ok then Ok(Unit.Unit) else Err(TaskStop);
    }

    /**
     Reclaim a program whose task has been waited for. Unlike `Reap`, a process that is not
     there any more is an error.
     */
    method FinishStop(deps: ProgramDeps, slot: nat) returns (r: Result<nat, ProgramError>)
      requires Valid(deps)
      modifies this, deps.pool, deps.processes, deps.ipc, deps.events, deps.scheduler`tasks
      ensures Valid(deps)
      ensures !old(Finished(deps, slot)) ==> r == Err(TaskStop) && slots == old(slots) && deps.Now() == old(deps.Now())
      ensures r.Ok? <==> old(Finished(deps, slot))
                         && (old(slots)[slot].process.Some? ==> Reclaimable(old(deps.processes.slots),
              old(slots)[slot].process.value))
      ensures r.Ok? ==> r.value == old(slots)[slot].generation && slots == old(slots)[slot := NoProgram(r.value)]
      ensures r.Ok? && old(slots)[slot].process.Some? ==> Ended(old(deps.Now()), deps.Now(), old(slots)[slot])
      ensures r.Err? && old(Finished(deps, slot)) ==>
                r.error.ProcessFailure? && slots == old(slots)[slot := old(slots)[slot].(process := None)]
                    && deps.Now() == old(deps.Now()).(tasks := deps.Now().tasks)
      ensures r.Err? && old(Finished(deps, slot)) ==>
              TaskGone(old(deps.scheduler.tasks), deps.scheduler.tasks, old(slots)[slot].task.value)
      ensures old(AllWhole()) ==> (AllWhole() <==> r.Ok? || !old(Finished(deps, slot)))
      ensures old(Secure(deps)) ==> Secure(deps) && (r.Ok? <==> old(Finished(deps, slot)))
    {
      hide FramePool.Valid, Processes.ProcessTable.Valid, IpcRegistry.Valid, EventRegistry.Valid, ServiceGone,
           FramesApart, OwnedBy, Frames, Held, Reclaimable;
      if slot >= |slots| || slots[slot].task.None? {
        return Err(TaskStop);
      }
      var program := slots[slot];
      ghost var now := deps.Now();
      var reclaimed := deps.scheduler.ReclaimCompleted(program.task.value);
      if !reclaimed {
        return Err(TaskStop);
      }
      slots := slots[slot := program.(process := None)];
      if program.process.Some? {
        var exit, ended := EndProcess(deps.processes, program.process.value);
        EndHeld(old(slots), slot, now, deps.Now(), program.process.value);
        OwnedSame(old(slots), slot, program.(process := None), now, deps.Now());
        if ended.Err? {
          assert !Whole(slots[slot]);
          return Err(ProcessFailure(ended.error));
        }
      }
      OwnedSame(old(slots), slot, program.(process := None), now, deps.Now());
      Release(deps, slot);
      r := Ok(program.generation);
    }

    /** Drop every program, whatever its task does. */
    method DiscardAll(deps: ProgramDeps)
      requires Valid(deps)
      modifies this, deps.pool, deps.processes, deps.ipc, deps.events
      ensures Valid(deps) && Secure(deps) && forall i :: 0 <= i < |slots| ==>
              slots[i] == NoProgram(old(slots)[i].generation)
      ensures forall i :: 0 <= i < |slots| ==> Discarded(deps.Now(), old(slots)[i])
    {
      hide ProgramDeps.Valid, OwnedBy, Freed, Discarded, ProcessEnded;
      for slot := 0 to |slots|
        invariant Valid(deps) && |slots| == |old(slots)|
        invariant forall i :: 0 <= i < slot ==> slots[i] == NoProgram(old(slots)[i].generation)
                                                && Discarded(deps.Now(), old(slots)[i])
        invariant forall i :: slot <= i < |slots| ==> slots[i] == old(slots)[i]
      {
        ghost var now, program := deps.Now(), slots[slot];
        if slots[slot].process.Some? {
          var exit := EndProgram(deps, slot);
        } else {
          Release(deps, slot);
        }
        IsDiscarded(now, deps.Now(), program);
        forall i | 0 <= i < slot
          ensures Discarded(deps.Now(), old(slots)[i])
        {
          StaysDiscarded(now, deps.Now(), program, old(slots)[i]);
        }
      }
    }

    /** A slot holds a task that has run to its end. */
    predicate Finished(deps: ProgramDeps, slot: nat)
      reads this, deps.scheduler
    {
      slot < |slots| && slots[slot].task.Some? && RanOut(deps.scheduler.tasks, slots[slot].task.value)
    }
  }

  /** Processes and tasks do not matter to the frames of programs. */
  lemma {:induction false} OwnedSame(slots: seq<ProgramSlot>, slot: nat, program: ProgramSlot, now: World, after: World)
    requires OwnedBy(slots, now) && slot < |slots| && after.live == now.live && after.queueOwner == now.queueOwner
    requires program == slots[slot].(process := program.process)
    ensures OwnedBy(slots[slot := program], after) && Frames(program) == Frames(slots[slot])
  {
  }

  // --- Starting -----------------------------------------------------------------------

  /** An image has live frames of its own. */
  ghost predicate ImageApart(slots: seq<ProgramSlot>, world: World, frames: set<nat>) {
    frames <= Standing(world) && forall i :: 0 <= i < |slots| ==> Frames(slots[i]) !! frames
  }

  ghost function Unloaded(world: World, frames: set<nat>): World {
    world.(live := world.live - frames)
  }

  /** A task of the process that has not run yet. */
  ghost predicate Fresh(tasks: seq<Schedulers.Task>, task: Schedulers.Handle, process: Processes.Handle) {
    && task.slot < |tasks| && tasks[task.slot].word
       == SchedulerWords.StateWord(task.generation, SchedulerWords.Runnable, false)
    && tasks[task.slot].process == KeyOf(process)
  }

  function KeyOf(process: Processes.Handle): nat {
    process.generation * 256 + process.slot
  }

  /**
   The program has its five queues, and its page tables and the space of its process are one:
   the image, the two private pages, and no more.
   */
  ghost predicate Equipped(deps: ProgramDeps, space: PageTableBuilder, launch: Launch, program: ProgramSlot,
                           surface: Surface)
    reads deps.processes, deps.pool, deps.ipc, deps.events, deps.scheduler, space
  {
    && program.process.Some? && program.image.Some?
    && Surfaced(deps.Now().ipc, ClientOf(launch), launch.atrium, launch.epoch, launch.sizes, surface)
    && Housed(deps.processes, program.process.value, space, program.image.value, program.staging, program.bootstrap)
    && ImageMapping.SpaceHere(deps.processes, program.process.value)
    && SpaceNow(deps, program.process.value).root == Some(space.root)
    && Agree(space.mapped, SpaceNow(deps, program.process.value).mappings)
  }

  function NoSurface(): Surface {
    Surface(Handle(0, 0), Handle(0, 0), Handle(0, 0), Handle(0, 0), Handle(0, 0))
  }

  /** Take a start back and leave the programs their frames. */
  method Abandon(deps: ProgramDeps, ghost slots: seq<ProgramSlot>, ghost launch: Launch,
                 process: Option<Processes.Handle>, tables: PageTableBuilder, image: LoadedImage,
                 client: Option<Handle>, staging: Option<nat>, bootstrap: Option<nat>, ghost before: World,
                     ghost clean: bool, ghost error: ProgramError)
    requires deps.Valid() && tables.OwnedFrames(deps.pool)
             && (process.Some? ==> deps.processes.IsRunning(process.value))
    requires Stage(before, deps.Now(), tables.owned, Elements(Listed(staging) + Listed(bootstrap)), process, client,
                   clean)
    requires OwnedBy(slots, before) && ImageApart(slots, before, ImageFrames(image.pages))
    requires if client.Some? then client.value == ClientOf(launch) else LateError(error, launch) ==>
             Clean(deps.Now().ipc, ClientOf(launch))
    modifies deps.pool, deps.processes, deps.ipc, deps.events, tables, image
    ensures deps.Valid() && OwnedBy(slots, deps.Now())
            && SameProcesses(before.slots, before.spaces, deps.processes.slots, deps.processes.spaces)
    ensures clean ==> Restored(Unloaded(before, ImageFrames(old(image.pages))), deps.Now())
    ensures LateError(error, launch) && Restored(Unloaded(before, ImageFrames(old(image.pages))), deps.Now()) ==>
            Clean(before.ipc, ClientOf(launch))
  {
    hide ProgramDeps.Valid, Stage, OwnedBy, Frames, Clean, SameIpc, ImageFrames, Elements, SameProcesses, ServiceGone;
    ImageStanding(slots, before, ImageFrames(image.pages));
    AbortStart(deps, process, tables, image, client, staging, bootstrap, before, clean);
    OwnedRolledBack(slots, before, deps.Now(), ImageFrames(old(image.pages)));
    if LateError(error, launch) && SameIpc(before.ipc, deps.Now().ipc) {
      RestoringNeedsClean(before.ipc, deps.Now().ipc, ClientOf(launch));
    }
  }

  /** A task that enters a process raised from an image makes a program. */
  lemma {:induction false} Settled(slots: seq<ProgramSlot>, before: World, now: World, after: World, slot: nat,
                                   program: ProgramSlot, tables: set<nat>, image: set<nat>, clean: bool)
    requires OwnedBy(slots, before) && ImageApart(slots, before, image) && slot < |slots|
    requires program.process.Some? && program.client.Some? && program.task.Some? && program.table.Some?
             && program.image.Some?
    requires Stage(before, now, tables, Elements(Listed(program.staging) + Listed(program.bootstrap)), program.process,
                   program.client, clean)
    requires (forall frame :: frame in program.table.value <==> frame in tables)
             && image == ImageFrames(program.image.value)
    requires after == now.(tasks := after.tasks) && TaskOnly(now.tasks, after.tasks, program.task.value)
             && Reclaimable(after.slots, program.process.value)
    ensures OwnedBy(slots[slot := program], after) && (clean ==> Holds(Unloaded(before, image), after, program))
    ensures Held(slots, before.slots) && slots[slot].process.None? ==> Held(slots[slot := program], after.slots)
  {
    hide Stage, OwnedBy, Frames, Held, Holds, ImageFrames, ImageApart, TaskOnly, Elements, Reclaimable, ProcessOnly;
    var extra := Elements(Listed(program.staging) + Listed(program.bootstrap));
    ImageStanding(slots, before, image);
    StageOwned(before, now, tables, extra, program.process, program.client, clean);
    StageProcessIs(before, now, tables, extra, program.process.value, program.client, clean);
    ProgramFrames(program, tables);
    OwnedStarted(slots, before, after, slot, program, tables + extra, image);
    if clean {
      StartHolds(before, now, after, tables, image, program);
    }
    HeldStarted(slots, slot, program, before.slots, before.spaces, after.slots, after.spaces);
  }

  lemma StageProcessIs(before: World, now: World, tables: set<nat>, extra: set<nat>, process: Processes.Handle,
                       client: Option<Handle>, clean: bool)
    requires Stage(before, now, tables, extra, Some(process), client, clean)
    ensures ProcessOnly(before.slots, before.spaces, now.slots, now.spaces, process)
  {
  }

  /** One slot got a whole program with the client and the image of the launch. */
  ghost predicate Filled(slots: seq<ProgramSlot>, slots': seq<ProgramSlot>, launch: Launch, pages: seq<LoadedPage>) {
    && launch.slot < |slots| == |slots'| && slots' == slots[launch.slot := slots'[launch.slot]]
    && var program := slots'[launch.slot];
       Whole(program) && program.task.Some? && program.generation == launch.generation
           && program.client == Some(ClientOf(launch)) && program.image == Some(pages)
  }

  function ErrorOf<T>(r: Result<T, ProgramError>): ProgramError {
    if r.Err? then r.error else Resources
  }

  lemma ImageStanding(slots: seq<ProgramSlot>, world: World, frames: set<nat>)
    requires ImageApart(slots, world, frames)
    ensures frames <= Standing(world)
  {
  }

  lemma ProgramFrames(program: ProgramSlot, owned: set<nat>)
    requires program.table.Some? && program.image.Some? && forall frame :: frame in program.table.value <==>
             frame in owned
    ensures Frames(program) == owned + Elements(Listed(program.staging) + Listed(program.bootstrap))
            + ImageFrames(program.image.value)
  {
  }

  /** Give an image back that no program was started from. */
  method DropImage(deps: ProgramDeps, image: LoadedImage)
    requires deps.Valid() && ImageFrames(image.pages) <= Standing(deps.Now())
    modifies deps.pool, image
    ensures deps.Valid() && Standing(old(deps.Now())) - ImageFrames(old(image.pages)) <= Standing(deps.Now())
    ensures Restored(Unloaded(old(deps.Now()), ImageFrames(old(image.pages))), deps.Now())
  {
    hide FramePool.Valid, Processes.ProcessTable.Valid, IpcRegistry.Valid, EventRegistry.Valid,
         Schedulers.Scheduler.Valid, FramesApart;
    image.Reclaim(deps.pool);
  }

  /** A task that enters the process. */
  method SpawnTask(deps: ProgramDeps, process: Processes.Handle, root: nat)
      returns (r: Result<Schedulers.Handle, ProgramError>)
    requires deps.Valid()
    modifies deps.scheduler`tasks
    ensures deps.Valid()
    ensures r.Err? ==> deps.Now() == old(deps.Now())
    ensures r.Ok? ==> TaskOnly(old(deps.scheduler.tasks), deps.scheduler.tasks, r.value)
                      && Fresh(deps.scheduler.tasks, r.value, process)
  {
    hide FramePool.Valid, Processes.ProcessTable.Valid, IpcRegistry.Valid, EventRegistry.Valid, FramesApart;
    var task := deps.scheduler.Spawn(KeyOf(process), root, true);
    if task.Err? {
      return Err(match task.error case Capacity => TaskCapacity case AddressSpace => TaskAddressSpace case UserLaunch =>
                 TaskLaunch);
    }
    r := Ok(task.value);
  }

  /** A failed start leaves the programs their frames. */
  lemma {:induction false} OwnedRolledBack(slots: seq<ProgramSlot>, before: World, now: World, image: set<nat>)
    requires OwnedBy(slots, before) && ImageApart(slots, before, image) && Standing(before) - image <= Standing(now)
    ensures OwnedBy(slots, now)
  {
    hide Frames;
  }

  /** So does a successful one, and the new program has frames of its own. */
  lemma {:induction false} OwnedStarted(slots: seq<ProgramSlot>, before: World, now: World, slot: nat,
                                        program: ProgramSlot, taken: set<nat>, image: set<nat>)
    requires OwnedBy(slots, before) && ImageApart(slots, before, image) && slot < |slots| && Apart(before, now, taken)
             && Frames(program) == taken + image
    ensures OwnedBy(slots[slot := program], now)
  {
    hide Frames;
  }

  /** What a start took up to its task, the task and the image make up the program. */
  lemma StartHolds(before: World, now: World, after: World, tables: set<nat>, image: set<nat>, program: ProgramSlot)
    requires program.process.Some? && program.client.Some? && program.task.Some? && image <= Standing(before)
    requires Stage(before, now, tables, Elements(Listed(program.staging) + Listed(program.bootstrap)), program.process,
                   program.client, true)
    requires Frames(program) == tables + Elements(Listed(program.staging) + Listed(program.bootstrap)) + image
    requires after == now.(tasks := after.tasks) && TaskOnly(before.tasks, after.tasks, program.task.value)
             && Reclaimable(after.slots, program.process.value)
    ensures Holds(Unloaded(before, image), after, program)
  {
    hide Frames, FramesApart, ClientOnly, ProcessOnly, Elements;
  }

  // --- Discarding ---------------------------------------------------------------------

  /** Nothing of a program is left: no frame is live, its client owns nothing, its process is vacated. */
  ghost predicate Discarded(world: World, program: ProgramSlot) {
    && Frames(program) !! world.live.Keys
    && (program.client.Some? ==> Clean(world.ipc, program.client.value))
    && (program.process.Some? ==> !Reclaimable(world.slots, program.process.value))
  }

  ghost predicate ProgramGone(now: World, after: World, program: ProgramSlot) {
    && Freed(now, after, program)
    && if program.process.Some? then ProcessEnded(now, after, program.process.value) else after.slots == now.slots
  }

  lemma IsDiscarded(now: World, after: World, program: ProgramSlot)
    requires ProgramGone(now, after, program)
    ensures Discarded(after, program)
  {
    hide Frames, ServiceGone, Clean, FramesApart;
    if program.client.Some? {
      GoneClean(now.ipc, after.ipc, program.client.value);
    }
  }

  /** The end of another program brings nothing back. */
  lemma StaysDiscarded(now: World, after: World, other: ProgramSlot, program: ProgramSlot)
    requires Discarded(now, program) && ProgramGone(now, after, other)
    ensures Discarded(after, program)
  {
    hide Frames, ServiceGone, Clean, FramesApart;
    if program.client.Some? && other.client.Some? {
      StaysClean(now.ipc, after.ipc, other.client.value, program.client.value);
    }
  }

  // --- A whole life -------------------------------------------------------------------

  /** Telling a program to stop changes nothing but its task. */
  lemma StopHolds(before: World, now: World, after: World, program: ProgramSlot)
    requires Holds(before, now, program) && after == now.(tasks := after.tasks)
             && Halting(now.tasks, after.tasks, program.task.value)
    ensures Holds(before, after, program)
  {
    hide Frames, FramesApart, ClientOnly, ProcessOnly, Owes;
  }

  /** Start, stop and reap: whether or not the start succeeds, all is as before the image was loaded. */
  method StartStopReap(runtime: ProgramRuntime, deps: ProgramDeps, launch: Launch, image: LoadedImage,
                       header: Surface -> Elf.Bytes)
    returns (r: Result<(nat, ProgramExit), ProgramError>)
    requires runtime.Valid(deps) && KernelApart(launch.kernel, deps.pool)
             && ImageApart(runtime.slots, deps.Now(), ImageFrames(image.pages))
    requires Clean(deps.Now().ipc, ClientOf(launch))
    modifies runtime, deps`verdicts, deps.pool, deps.memory, deps.sink, deps.processes, deps.ipc, deps.events,
             deps.scheduler`tasks, image
    ensures runtime.Valid(deps) && Restored(Unloaded(old(deps.Now()), ImageFrames(old(image.pages))), deps.Now())
    ensures r.Err? ==> runtime.slots == old(runtime.slots)
    ensures r.Ok? ==> r.value == (launch.generation, Stopped) && launch.slot < MAX_PROGRAMS
                      && runtime.slots == old(runtime.slots)[launch.slot := NoProgram(launch.generation)]
  {
    hide ProgramDeps.Valid, OwnedBy, Freed, ProcessEnded, KernelApart, ImageApart, ImageFrames, Clean, Restored, Holds,
         Frames, PageTableBuilder.Valid, Ended, TaskOnly, Equipped, Shown, Held, LateError, Reclaimable;
    ghost var before := Unloaded(deps.Now(), ImageFrames(image.pages));
    var started;
    ghost var space, surface;
    started, space, surface := runtime.Start(deps, launch, image, header);
    if started.Err? {
      return Err(started.error);
    }
    ghost var program, now := runtime.slots[launch.slot], deps.Now();
    var stopped := runtime.RequestStop(deps, launch.slot);
    StopHolds(before, now, deps.Now(), program);
    now := deps.Now();
    var reaped := runtime.Reap(deps, launch.slot);
    EndRestores(before, now, deps.Now(), program);
    r := Ok(reaped.value.value);
  }

  /**
   Another holder of the process reclaims it before the program is stopped: the stop fails,
   and the slot then holds a task that is gone, so that no start, reap or stop has it again.
   */
  method StopAfterReclaim(runtime: ProgramRuntime, deps: ProgramDeps, launch: Launch, image: LoadedImage,
                          header: Surface -> Elf.Bytes)
    returns (started: bool, stopped: Result<nat, ProgramError>)
    requires runtime.Valid(deps) && runtime.Secure(deps) && KernelApart(launch.kernel, deps.pool)
             && ImageApart(runtime.slots, deps.Now(), ImageFrames(image.pages))
    modifies runtime, deps`verdicts, deps.pool, deps.memory, deps.sink, deps.processes, deps.ipc, deps.events,
             deps.scheduler`tasks, image
    ensures runtime.Valid(deps)
    ensures started ==> stopped.Err? && stopped.error.ProcessFailure?
    ensures started ==> !runtime.AllWhole() && !runtime.Available(launch.slot) && !runtime.Finished(deps, launch.slot)
  {
    hide ProgramDeps.Valid, OwnedBy, Freed, KernelApart, ImageApart, ImageFrames, Clean, Restored, Holds, Frames,
         PageTableBuilder.Valid, Ended, TaskOnly, Equipped, Shown, Held;
    var result;
    ghost var space, surface;
    result, space, surface := runtime.Start(deps, launch, image, header);
    if result.Err? {
      return false, Err(result.error);
    }
    started := true;
    ReclaimElsewhere(runtime, deps, runtime.slots[launch.slot].process.value);
    var _ := runtime.RequestStop(deps, launch.slot);
    stopped := runtime.FinishStop(deps, launch.slot);
  }

  /** Another holder ends a running process and vacates its slot. */
  method ReclaimElsewhere(runtime: ProgramRuntime, deps: ProgramDeps, process: Processes.Handle)
    requires runtime.Valid(deps) && deps.processes.IsRunning(process)
    modifies deps.processes
    ensures runtime.Valid(deps) && !Reclaimable(deps.processes.slots, process)
  {
    hide FramePool.Valid, IpcRegistry.Valid, EventRegistry.Valid, Schedulers.Scheduler.Valid, FramesApart, OwnedBy,
         Processes.ProcessTable.Valid;
    ghost var now := deps.Now();
    var _ := deps.processes.Exit(process, 0);
    var _ := deps.processes.Reclaim(process);
    OwnedAlike(runtime.slots, now, deps.Now());
  }

  lemma {:induction false} OwnedAlike(slots: seq<ProgramSlot>, now: World, after: World)
    requires OwnedBy(slots, now) && after.live == now.live && after.queueOwner == now.queueOwner
    ensures OwnedBy(slots, after)
  {
    hide Frames;
  }

  lemma OwnedFramesOf(slots: seq<ProgramSlot>, world: World, slot: nat)
    requires OwnedBy(slots, world) && slot < |slots|
    ensures Frames(slots[slot]) <= Standing(world)
  {
  }

  lemma FreedFrames(live: map<nat, nat>, queues: set<nat>, after: map<nat, nat>, program: ProgramSlot)
    requires after == live - queues - Elements(Listed(program.staging) + Listed(program.bootstrap))
             - Elements(TablesIn(program)) - Elements(FramesOf(PagesIn(program)))
    ensures after == live - queues - Frames(program)
  {
  }
}

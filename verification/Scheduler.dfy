/**
 The scheduler with each method as one atomic step: state words as in SchedulerWords,
 plus the deadlines and event objects that blocked tasks wait for.
 */
module Schedulers {
  import opened Common
  import opened SchedulerWords

  datatype Handle = Handle(slot: nat, generation: nat)

  datatype Task = Task(word: StateWord, deadline: Option<nat>, waitObject: nat, contextSaved: bool, process: nat)

  datatype CpuState = CpuState(online: bool, cursor: nat, current: Option<Handle>)

  datatype SpawnError = Capacity | AddressSpace | UserLaunch

  const NO_TASK := Task(StateWord(1, Vacant, false), None, 0, false, 0)

  predicate Awaiting(state: State) {
    state == Running || state == Blocked
  }

  /** Only a running or blocked task is registered for a deadline or an event object; a vacant slot is clean. */
  predicate Kept(task: Task) {
    && (task.deadline.Some? || task.waitObject != 0 ==> Awaiting(task.word.state))
    && (task.word.state == Vacant ==> !task.contextSaved && task.process == 0)
    && task.word.state != Initializing && (task.word.wake ==> task.word.state == Running)
  }

  // --- What each operation does to a task -----------------------------------------

  function Unregistered(task: Task): Task {
    task.(deadline := None, waitObject := 0)
  }

  /** A wake makes a blocked task runnable and a running task's next wait short. */
  function Woken(task: Task): Task {
    var next := Next(Wake(task.word.generation), task.word);
    if next.None? then task
    else if task.word.state == Blocked then Unregistered(task).(word := next.value)
    else task.(word := next.value, waitObject := 0)
  }

  function Ended(task: Task, outcome: Outcome): Task {
    var next := Next(Finish(task.word.generation, outcome), task.word);
    if next.None? then task
    else
      var state := next.value.state;
      task.(word := next.value,
            waitObject := if state != Blocked then 0 else task.waitObject,
            deadline := if state != Blocked || outcome == ToBlocked then None else task.deadline)
  }

  function Halted(task: Task): Task {
    var next := Next(Stop(task.word.generation), task.word);
    if next.None? then task else if next.value == task.word then task else Unregistered(task).(word := next.value)
  }

  function Timely(task: Task, now: nat): Task {
    if task.word.state == Blocked && task.deadline.Some? && task.deadline.value <= now
    then Unregistered(task).(word := Next(Due, task.word).value)
    else task
  }

  predicate WaitsFor(task: Task, target: nat) {
    target != 0 && task.waitObject == target && Awaiting(task.word.state)
  }

  function Signalled(task: Task, target: nat): Task {
    if WaitsFor(task, target) then Woken(task) else task
  }

  // --- No signal is lost ------------------------------------------------------------

  /** The task will not sleep on: it is not blocked, and if it runs its next attempt to block is short. */
  predicate Roused(task: Task) {
    task.word.state != Blocked && (task.word.state == Running ==> task.word.wake)
  }

  /** Everything that can happen to a task between its registration and its next claim. */
  datatype Event = Wakes | Ends(outcome: Outcome) | Halts | Passes(now: nat) | Signals(target: nat) |
      Arms(deadline: nat)

  function Happens(task: Task, event: Event): Task {
    match event
    case Wakes => Woken(task)
    case Ends(outcome) => Ended(task, outcome)
    case Halts => Halted(task)
    case Passes(now) => Timely(task, now)
    case Signals(target) => Signalled(task, target)
    case Arms(deadline) => if task.word.state == Running then task.(deadline := Some(deadline)) else task
  }

  function AllHappen(task: Task, events: seq<Event>): Task {
    if |events| == 0 then task else Happens(AllHappen(task, events[..|events| - 1]), events[|events| - 1])
  }

  lemma WaitingOrRoused(task: Task, event: Event, target: nat)
    requires WaitsFor(task, target) || Roused(task)
    ensures WaitsFor(Happens(task, event), target) || Roused(Happens(task, event))
    ensures event == Signals(target) || Roused(task) ==> Roused(Happens(task, event))
  {
  }

  /**
   A task registered for an object, running or already blocked, is roused by the targets
   signal whatever else happens before and after, in any order.
   */
  lemma {:induction false} SignalNotLost(task: Task, events: seq<Event>, target: nat)
    requires WaitsFor(task, target)
    ensures WaitsFor(AllHappen(task, events), target) || Roused(AllHappen(task, events))
    ensures Signals(target) in events ==> Roused(AllHappen(task, events))
  {
    if |events| > 0 {
      var last, before := |events| - 1, AllHappen(task, events[..|events| - 1]);
      SignalNotLost(task, events[..last], target);
      WaitingOrRoused(before, events[last], target);
      assert events == events[..last] + [events[last]];
    }
  }

  function Count(tasks: seq<Task>, target: nat): nat {
    if |tasks| == 0 then 0 else Count(tasks[..|tasks| - 1], target) + if WaitsFor(tasks[|tasks| - 1], target) then
        1 else 0
  }

  function CountDue(tasks: seq<Task>, now: nat): nat {
    if |tasks| == 0 then 0 else CountDue(tasks[..|tasks| - 1], now) + if Timely(tasks[|tasks| - 1], now)
                                != tasks[|tasks| - 1] then 1 else 0
  }

  class Scheduler {
    var tasks: seq<Task>
    var cpus: seq<CpuState>

    ghost predicate Valid()
      reads this
    {
      |tasks| == MAX_TASKS && |cpus| == MAX_CPUS && forall i :: 0 <= i < MAX_TASKS ==> Kept(tasks[i])
    }

    constructor ()
      ensures Valid() && forall i :: 0 <= i < MAX_TASKS ==> tasks[i] == NO_TASK
    {
      tasks := seq(MAX_TASKS, _ => NO_TASK);
      cpus := seq(MAX_CPUS, _ => CpuState(false, 0, None));
    }

    /** The handle names a task of the current generation. */
    predicate Named(handle: Handle)
      reads this
    {
      handle.slot < |tasks| && tasks[handle.slot].word.generation == handle.generation
    }

    /** Set up a task in the first vacant slot. */
    method Spawn(process: nat, addressSpace: nat, user: bool) returns (r: Result<Handle, SpawnError>)
      requires Valid()
      modifies this`tasks
      ensures Valid()
      ensures r == Err(AddressSpace) <==> addressSpace % PAGE_SIZE != 0
      ensures r == Err(UserLaunch) <==> addressSpace % PAGE_SIZE == 0 && user && process == 0
      ensures r == Err(Capacity) ==> forall i :: 0 <= i < MAX_TASKS ==> tasks[i].word.state != Vacant
      ensures r.Err? ==> tasks == old(tasks)
      ensures r.Ok? ==> r.value.slot < MAX_TASKS
                        && old(tasks)[r.value.slot].word == StateWord(r.value.generation, Vacant,
                                                                      old(tasks)[r.value.slot].word.wake)
      ensures r.Ok? ==> forall i :: 0 <= i < r.value.slot ==> tasks[i].word.state != Vacant
      ensures r.Ok? ==> tasks == old(tasks)[r.value.slot :=
                                            Task(StateWord(r.value.generation, Runnable, false), None, 0, false, if user
              then process else 0)]
    {
      if addressSpace % PAGE_SIZE != 0 {
        return Err(AddressSpace);
      }
      if user && process == 0 {
        return Err(UserLaunch);
      }
      for index := 0 to MAX_TASKS
        invariant tasks == old(tasks) && forall i :: 0 <= i < index ==> tasks[i].word.state != Vacant
      {
        var word := tasks[index].word;
        if word.state == Vacant {
          tasks := tasks[index := Task(StateWord(word.generation, Runnable, false), None, 0, false, if user then
              process else 0)];
          return Ok(Handle(index, word.generation));
        }
      }
      r := Err(Capacity);
    }

    /** Claim the first runnable task from the cursor on, wrapping around. */
    method ClaimNext(cpu: nat) returns (r: Option<Handle>)
      requires Valid()
      modifies this
      ensures Valid()
      ensures r.None? ==> tasks == old(tasks)
      ensures r.None? && cpu < MAX_CPUS && cpus[cpu].online ==> forall i :: 0 <= i < MAX_TASKS ==>
              tasks[i].word.state != Runnable
      ensures r.Some? ==> cpu < MAX_CPUS && old(cpus)[cpu].online && r.value.slot < MAX_TASKS
      ensures cpu < MAX_CPUS && old(cpus)[cpu].online ==>
                cpus == old(cpus)[cpu := old(cpus)[cpu].(cursor := old(cpus)[cpu].cursor + 1, current := if r.Some?
                    then r else old(cpus)[cpu].current)]
      ensures !(cpu < MAX_CPUS && old(cpus)[cpu].online) ==> cpus == old(cpus)
      ensures r.Some? ==> old(tasks)[r.value.slot].word.state == Runnable
                          && old(tasks)[r.value.slot].word.generation == r.value.generation
      ensures r.Some? ==> tasks == old(tasks)[r.value.slot :=
                                              old(tasks)[r.value.slot].(word := StateWord(r.value.generation, Running,
              false))]
      ensures r.Some? ==> forall i :: 0 <= i < MAX_TASKS
                                      && Distance(old(cpus)[cpu].cursor, i) < Distance(old(cpus)[cpu].cursor,
              r.value.slot) ==> tasks[i].word.state != Runnable
    {
      if cpu >= |cpus| || !cpus[cpu].online {
        return None;
      }
      var cursor := cpus[cpu].cursor;
      var start := cursor % MAX_TASKS;
      cpus := cpus[cpu := cpus[cpu].(cursor := cursor + 1)];
      for offset := 0 to MAX_TASKS
        invariant tasks == old(tasks) && cpus == old(cpus)[cpu := old(cpus)[cpu].(cursor := cursor + 1)]
        invariant forall i :: 0 <= i < MAX_TASKS && Distance(cursor, i) < offset ==> tasks[i].word.state != Runnable
      {
        var index := (start + offset) % MAX_TASKS;
        DistanceOf(cursor, offset);
        var word := tasks[index].word;
        if word.state == Runnable {
          tasks := tasks[index := tasks[index].(word := StateWord(word.generation, Running, false))];
          var handle := Handle(index, word.generation);
          cpus := cpus[cpu := cpus[cpu].(current := Some(handle))];
          return Some(handle);
        }
        forall i | 0 <= i < MAX_TASKS && Distance(cursor, i) < offset + 1
          ensures tasks[i].word.state != Runnable
        {
          DistanceUnique(cursor, i, offset);
        }
      }
      r := None;
    }

    method Online(cpu: nat) returns (ok: bool)
      requires Valid()
      modifies this`cpus
      ensures Valid() && (ok <==> cpu < MAX_CPUS)
      ensures cpus == if ok then old(cpus)[cpu := old(cpus)[cpu].(online := true)] else old(cpus)
    {
      ok := cpu < |cpus|;
      if ok {
        cpus := cpus[cpu := cpus[cpu].(online := true)];
      }
    }

    method WakeTask(handle: Handle) returns (ok: bool)
      requires Valid()
      modifies this`tasks
      ensures Valid()
      ensures ok <==>
              && old(Named(handle))
              && (Awaiting(old(tasks)[handle.slot].word.state) || old(tasks)[handle.slot].word.state == Runnable)
      ensures tasks == if ok then old(tasks)[handle.slot := Woken(old(tasks)[handle.slot])] else old(tasks)
    {
      if handle.slot >= |tasks| || tasks[handle.slot].word.generation != handle.generation {
        return false;
      }
      var task := tasks[handle.slot];
      match task.word.state {
        case Blocked => tasks := tasks[handle.slot :=
                                       Unregistered(task).(word := StateWord(handle.generation, Runnable, false))];
        case Running => tasks := tasks[handle.slot := task.(waitObject := 0, word := task.word.(wake := true))];
        case Runnable => tasks := tasks[handle.slot := task.(waitObject := 0)];
        case _ => return false;
      }
      ok := true;
    }

    method RequestStop(handle: Handle) returns (ok: bool)
      requires Valid()
      modifies this`tasks
      ensures Valid()
      ensures ok <==> old(Named(handle)) && old(tasks)[handle.slot].word.state != Vacant
      ensures tasks == if ok then old(tasks)[handle.slot := Halted(old(tasks)[handle.slot])] else old(tasks)
    {
      if handle.slot >= |tasks| || tasks[handle.slot].word.generation != handle.generation {
        return false;
      }
      var task := tasks[handle.slot];
      match task.word.state {
        case Running => tasks := tasks[handle.slot :=
                                       Unregistered(task).(word := StateWord(handle.generation, Stopping, false))];
        case Runnable => tasks := tasks[handle.slot :=
                                        Unregistered(task).(word := StateWord(handle.generation, Completed, false))];
        case Blocked => tasks := tasks[handle.slot :=
                                       Unregistered(task).(word := StateWord(handle.generation, Completed, false))];
        case Vacant => return false;
        case _ =>
      }
      ok := true;
    }

    method FinishTask(handle: Handle, outcome: Outcome) returns (ok: bool)
      requires Valid()
      modifies this`tasks
      ensures Valid()
      ensures ok <==> old(Named(handle)) && old(tasks)[handle.slot].contextSaved &&
                      (old(tasks)[handle.slot].word.state == Running || old(tasks)[handle.slot].word.state == Stopping)
      ensures tasks == if ok then old(tasks)[handle.slot := Ended(old(tasks)[handle.slot], outcome)] else old(tasks)
    {
      if handle.slot >= |tasks| || !tasks[handle.slot].contextSaved {
        return false;
      }
      var task := tasks[handle.slot];
      if task.word.generation != handle.generation || !(task.word.state == Running || task.word.state == Stopping) {
        return false;
      }
      var state := match outcome
        case ToRunnable => Runnable
        case ToBlocked => if task.word.wake then Runnable else Blocked
        case ToTimedBlocked => if task.word.wake then Runnable else Blocked
        case ToCompleted => Completed;
      state := if task.word.state == Stopping then Completed else state;
      if state != Blocked {
        task := task.(waitObject := 0);
      }
      if state != Blocked || outcome == ToBlocked {
        task := task.(deadline := None);
      }
      tasks := tasks[handle.slot := task.(word := StateWord(handle.generation, state, false))];
      ok := true;
    }

    method SaveContext(handle: Handle) returns (ok: bool)
      requires Valid()
      modifies this`tasks
      ensures Valid()
      ensures ok <==>
              && old(Named(handle))
              && (old(tasks)[handle.slot].word.state == Running || old(tasks)[handle.slot].word.state == Stopping)
      ensures tasks == if ok then old(tasks)[handle.slot := old(tasks)[handle.slot].(contextSaved := true)]
                                  else old(tasks)
    {
      if handle.slot >= |tasks| || tasks[handle.slot].word.generation != handle.generation {
        return false;
      }
      ok := tasks[handle.slot].word.state == Running || tasks[handle.slot].word.state == Stopping;
      if ok {
        tasks := tasks[handle.slot := tasks[handle.slot].(contextSaved := true)];
      }
    }

    /** Register a running task for an event object, with a deadline. */
    method WaitForEventObject(handle: Handle, target: nat, deadline: Option<nat>) returns (ok: bool)
      requires Valid()
      modifies this`tasks
      ensures Valid()
      ensures ok <==> target != 0 && old(Named(handle)) && old(tasks)[handle.slot].word.state == Running
      ensures ok ==>
              && tasks == old(tasks)[handle.slot :=
                                     old(tasks)[handle.slot].(waitObject := target, deadline := deadline)]
              && WaitsFor(tasks[handle.slot], target)
      ensures !ok ==> tasks == old(tasks)
    {
      if target == 0 || handle.slot >= |tasks| {
        return false;
      }
      var task := tasks[handle.slot];
      if task.word.generation != handle.generation || task.word.state != Running {
        return false;
      }
      tasks := tasks[handle.slot := task.(waitObject := target, deadline := deadline)];
      ok := true;
    }

    /** Wake every task registered for an object, and no other. */
    method SignalEventObject(target: nat) returns (woken: nat)
      requires Valid()
      modifies this`tasks
      ensures Valid() && woken == Count(old(tasks), target)
      ensures forall i :: 0 <= i < MAX_TASKS ==> tasks[i] == Signalled(old(tasks)[i], target)
    {
      woken := 0;
      if target == 0 {
        NobodyWaits(tasks);
        return;
      }
      for index := 0 to MAX_TASKS
        invariant Valid() && woken == Count(old(tasks)[..index], target)
        invariant forall i :: 0 <= i < index ==> tasks[i] == Signalled(old(tasks)[i], target)
        invariant forall i :: index <= i < MAX_TASKS ==> tasks[i] == old(tasks)[i]
      {
        assert old(tasks)[..index + 1][..index] == old(tasks)[..index];
        var task := tasks[index];
        if task.waitObject == target && (task.word.state == Blocked || task.word.state == Running) {
          var ok := WakeTask(Handle(index, task.word.generation));
          if ok {
            woken := woken + 1;
          }
        }
      }
      assert old(tasks)[..MAX_TASKS] == old(tasks);
    }

    /** Wake every blocked task whose deadline has passed, and no other. */
    method WakeDue(now: nat) returns (woken: nat)
      requires Valid()
      modifies this`tasks
      ensures Valid() && woken == CountDue(old(tasks), now)
      ensures forall i :: 0 <= i < MAX_TASKS ==> tasks[i] == Timely(old(tasks)[i], now)
    {
      woken := 0;
      for index := 0 to MAX_TASKS
        invariant Valid() && woken == CountDue(old(tasks)[..index], now)
        invariant forall i :: 0 <= i < index ==> tasks[i] == Timely(old(tasks)[i], now)
        invariant forall i :: index <= i < MAX_TASKS ==> tasks[i] == old(tasks)[i]
      {
        assert old(tasks)[..index + 1][..index] == old(tasks)[..index];
        var task := tasks[index];
        if task.word.state == Blocked && task.deadline.Some? && task.deadline.value <= now {
          tasks := tasks[index := Task(StateWord(task.word.generation, Runnable, false), None, 0, task.contextSaved,
                                       task.process)];
          woken := woken + 1;
        }
      }
      assert old(tasks)[..MAX_TASKS] == old(tasks);
    }

    /** Clear a completed task's slot for the next generation. */
    method ReclaimCompleted(handle: Handle) returns (ok: bool)
      requires Valid()
      modifies this`tasks
      ensures Valid()
      ensures ok <==> handle.slot < MAX_TASKS && old(tasks)[handle.slot].word
                      == StateWord(handle.generation, Completed, false)
      ensures tasks == if ok then old(tasks)[handle.slot :=
                                             NO_TASK.(word := StateWord(NextGeneration(handle.generation), Vacant,
              false))] else old(tasks)
      ensures ok ==> !Named(handle)
    {
      if handle.slot >= |tasks| || tasks[handle.slot].word != StateWord(handle.generation, Completed, false) {
        return false;
      }
      tasks := tasks[handle.slot := NO_TASK.(word := StateWord(NextGeneration(handle.generation), Vacant, false))];
      ok := true;
    }
  }

  /** How far a slot is ahead of the cursor. */
  function Distance(cursor: nat, slot: nat): nat {
    (slot + MAX_TASKS - cursor % MAX_TASKS) % MAX_TASKS
  }

  lemma DistanceOf(cursor: nat, offset: nat)
    requires offset < MAX_TASKS
    ensures Distance(cursor, (cursor % MAX_TASKS + offset) % MAX_TASKS) == offset
  {
  }

  lemma DistanceUnique(cursor: nat, slot: nat, offset: nat)
    requires slot < MAX_TASKS && offset < MAX_TASKS
    ensures Distance(cursor, slot) == offset ==> slot == (cursor % MAX_TASKS + offset) % MAX_TASKS
  {
  }

  lemma {:induction false} NobodyWaits(tasks: seq<Task>)
    ensures Count(tasks, 0) == 0
  {
    if |tasks| > 0 {
      NobodyWaits(tasks[..|tasks| - 1]);
    }
  }
}

/**
 The service registry: starting a service with everything it depends on, restarting
 it with everything that depends on it, and keeping dependencies live.
 */
module Services {
  import opened Common
  import opened HandleSlots
  import opened ServiceGraph
  import opened RestartClosure

  const MAX_SERVICE_NAME_BYTES: nat := 16
  const DIRECTORY_RECORDS_PER_PAGE: nat := 32
  const NO_RIGHTS: nat := 0

  function NextEpoch(current: nat): nat {
    var next := (current + 1) % 0x1_0000_0000_0000_0000;
    if next == 0 then 1 else next
  }

  // --- Changing states ----------------------------------------------------------

  function WithState(slot: Slot<Service>, state: ServiceState): Slot<Service> {
    if slot.value.Some? then slot.(value := Some(slot.value.value.(state := state))) else slot
  }

  /** Exactly the services of `members` change state. */
  ghost predicate StatesSet(before: Slots, after: Slots, members: seq<Handle>, state: ServiceState) {
    && |after| == |before|
    && forall i :: 0 <= i < |before| ==> after[i] == if HandleAt(before, i) in members then
       WithState(before[i], state) else before[i]
  }

  /** Exactly the services that an open path reaches become running. */
  ghost predicate ReachedRun(before: Slots, after: Slots, seed: Option<Handle>, from: Handle) {
    && |after| == |before|
    && forall i :: 0 <= i < |before| ==>
         after[i] == if Reaches(before, seed, from, HandleAt(before, i)) then
             WithState(before[i], Running) else before[i]
  }

  lemma StatesSetSameGraph(before: Slots, after: Slots, members: seq<Handle>, state: ServiceState)
    requires StatesSet(before, after, members, state)
    ensures SameGraph(before, after)
  {
  }

  /** A collected order holds exactly what is reachable, and then no cycle is. */
  lemma OrderIsReach(slots: Slots, seed: Option<Handle>, order: seq<Handle>, handle: Handle)
    requires Live(slots, handle) && Topological(slots, seed, order) && Started(slots, seed, order, handle)
    requires forall h :: h in order ==> Reaches(slots, seed, handle, h)
    ensures forall h :: h in order <==> Reaches(slots, seed, handle, h)
    ensures !CycleFrom(slots, seed, handle)
  {
    if Open(slots, seed, handle) {
      NoCycle(slots, seed, order, handle);
      forall h | Reaches(slots, seed, handle, h)
        ensures h in order
      {
        ReachedEntries(slots, seed, order, handle, h);
      }
    }
  }

  lemma TrailIsCycle(slots: Slots, seed: Option<Handle>, handle: Handle, trail: seq<Handle>)
    requires Path(slots, seed, trail) && Revisits(trail) && trail[0] == handle
    ensures CycleFrom(slots, seed, handle)
  {
    assert CyclePath(slots, seed, handle, trail);
  }

  method ApplyStates(slots: Slots, members: seq<Handle>, state: ServiceState) returns (after: Slots)
    requires forall h :: h in members ==> Live(slots, h)
    ensures StatesSet(slots, after, members, state)
  {
    after := slots;
    for k := 0 to |members|
      invariant StatesSet(slots, after, members[..k], state)
    {
      var i := members[k].index;
      assert Live(slots, members[k]);
      after := after[i := WithState(after[i], state)];
      assert members[..k + 1] == members[..k] + [members[k]];
    }
    assert members[..|members|] == members;
  }

  lemma SetIsReach(before: Slots, after: Slots, order: seq<Handle>, seed: Option<Handle>, from: Handle)
    requires StatesSet(before, after, order, Running) && forall h :: h in order <==> Reaches(before, seed, from, h)
    ensures ReachedRun(before, after, seed, from)
  {
  }

  lemma EntriesLive(slots: Slots, seed: Option<Handle>, order: seq<Handle>)
    requires Topological(slots, seed, order)
    ensures forall h :: h in order ==> Live(slots, h)
  {
    forall h | h in order
      ensures Live(slots, h)
    {
      var i :| 0 <= i < |order| && order[i] == h;
      assert Ready(slots, seed, order[..i], order[i]);
    }
  }

  /** What collecting for a restart leaves is everything the service reaches but itself. */
  lemma RestartOrder(slots: Slots, handle: Handle, order: seq<Handle>)
    requires Live(slots, handle) && Topological(slots, Some(handle), order)
             && Grown(slots, Some(handle), [], order, handle, [handle])
    requires AllStarted(slots, Some(handle), order, At(slots, handle).dependencies)
    ensures !CycleFrom(slots, Some(handle), handle)
    ensures forall h :: h in order ==> Live(slots, h) && h != handle
    ensures forall h :: h in order || h == handle <==> Reaches(slots, Some(handle), handle, h)
  {
    hide Topological, Reaches, CycleFrom, AllStarted;
    assert handle !in order;
    TopologicalAppend(slots, Some(handle), order, handle);
    ReachesSelf(slots, Some(handle), handle);
    OrderIsReach(slots, Some(handle), order + [handle], handle);
    EntriesLive(slots, Some(handle), order);
  }

  class ServiceRegistry {
    var slots: Slots
    var generationSeed: nat

    ghost predicate Valid()
      reads this
    {
      Wired(slots) && Numbered(slots) && generationSeed != 0
    }

    constructor (generation: nat)
      ensures Valid() && slots == []
    {
      slots := [];
      generationSeed := if generation == 0 then 1 else generation;
    }

    /** Start a service and, before it, everything it needs that is not running. */
    method Start(handle: Handle) returns (r: Result<Unit, RegistryError>)
      requires Valid()
      modifies this`slots
      ensures Valid()
      ensures r.Ok? <==> Live(old(slots), handle) && !CycleFrom(old(slots), None, handle)
      ensures r.Ok? ==> ReachedRun(old(slots), slots, None, handle) && At(slots, handle).state == Running
      ensures r.Err? ==> slots == old(slots) && r.error == if Live(slots, handle) then DependencyCycle else Stale
    {
      hide Topological, Wired, Path, Reaches, CycleFrom;
      EmptyPath(slots, None);
      var collected, trail := CollectStartOrder(slots, handle, [], [], None, AllIndices(|slots|));
      if collected.Err? {
        if Live(slots, handle) {
          TrailIsCycle(slots, None, handle, trail);
        }
        return Err(collected.error);
      }
      OrderIsReach(slots, None, collected.value, handle);
      EntriesLive(slots, None, collected.value);
      var after := ApplyStates(slots, collected.value, Running);
      SetIsReach(slots, after, collected.value, None, handle);
      StatesSetSameGraph(slots, after, collected.value, Running);
      WiredSameGraph(slots, after);
      slots := after;
      r := Ok(Unit.Unit);
    }

    /** Restart one service, after starting everything it needs that is not running. */
    method Restart(handle: Handle) returns (r: Result<Unit, RegistryError>)
      requires Valid()
      modifies this`slots
      ensures Valid()
      ensures r.Ok? <==> Live(old(slots), handle) && !CycleFrom(old(slots), Some(handle), handle)
      ensures r.Ok? ==> Restarted(old(slots), slots, handle)
      ensures r.Err? ==> slots == old(slots) && r.error == if Live(slots, handle) then DependencyCycle else Stale
    {
      hide Topological, Wired, Path, Reaches, CycleFrom, AllStarted;
      if !Live(slots, handle) {
        return Err(Stale);
      }
      var collected := CollectForRestart(handle);
      if collected.Err? {
        return Err(collected.error);
      }
      var order := collected.value;
      var applied := ApplyStates(slots, order, Running);
      StatesSetSameGraph(slots, applied, order, Running);
      var service := At(applied, handle);
      var again := service.(epoch := NextEpoch(service.epoch), state := Running, restarts := if service.restarts < 255
          then service.restarts + 1 else 255);
      var after := applied[handle.index := applied[handle.index].(value := Some(again))];
      WiredSameGraph(slots, after);
      slots := after;
      r := Ok(Unit.Unit);
    }

    /** The start order of everything a service needs, the service itself aside. */
    method CollectForRestart(handle: Handle) returns (r: Result<seq<Handle>, RegistryError>)
      requires Valid() && Live(slots, handle)
      ensures r.Ok? <==> !CycleFrom(slots, Some(handle), handle)
      ensures r.Err? ==> r.error == DependencyCycle
      ensures r.Ok? ==> forall h :: h in r.value ==> Live(slots, h) && h != handle
      ensures r.Ok? ==> forall h :: h in r.value || h == handle <==> Reaches(slots, Some(handle), handle, h)
    {
      hide Topological, Wired, Path, Reaches, CycleFrom, AllStarted, Grown, AllIndices;
      var dependencies := At(slots, handle).dependencies;
      EmptyPath(slots, Some(handle));
      PathAppend(slots, Some(handle), [], handle);
      assert [] + [handle] == [handle];
      WiredLive(slots, handle);
      NoneStarted(slots, Some(handle), []);
      GrownNone(slots, Some(handle), handle, [handle]);
      var order := [];
      for k := 0 to |dependencies|
        invariant Topological(slots, Some(handle), order) && Grown(slots, Some(handle), [], order, handle, [handle])
        invariant AllStarted(slots, Some(handle), order, dependencies[..k])
      {
        GrownElsewhere(slots, Some(handle), [], order, handle, [handle]);
        var collected, trail := CollectStartOrder(slots, dependencies[k], [handle], order, Some(handle),
                                                  AllIndices(|slots|));
        if collected.Err? {
          assert trail[0] == ([handle] + [dependencies[k]])[0];
          TrailIsCycle(slots, Some(handle), handle, trail);
          return Err(collected.error);
        }
        GrownVia(slots, Some(handle), [], order, collected.value, handle, dependencies[k], [handle]);
        StartedMore(slots, Some(handle), order, collected.value, dependencies[..k], dependencies[k]);
        assert dependencies[..k + 1] == dependencies[..k] + [dependencies[k]];
        order := collected.value;
      }
      assert dependencies[..|dependencies|] == dependencies;
      RestartOrder(slots, handle, order);
      r := Ok(order);
    }

    /** Add a service whose dependencies exist. */
    method Register(name: string, image: seq<nat>, dependencies: seq<Handle>, quota: nat, source: ImageSource)
        returns (r: Result<Handle, RegistryError>)
      requires Valid()
      modifies this`slots
      ensures Valid()
      ensures r.Ok? <==> 0 < |name| <= MAX_SERVICE_NAME_BYTES && image != [] && quota > 0
                         && AllLive(old(slots), dependencies)
      ensures r.Err? ==> slots == old(slots)
      ensures r.Ok? ==> !Live(old(slots), r.value) && Live(slots, r.value) && r.value.generation != 0
      ensures r.Ok? ==> At(slots, r.value) == Service(r.value, name, image, dependencies, Stopped, 1, 0, quota,
                                                      NO_RIGHTS, source)
      ensures r.Ok? ==> forall h :: h != r.value ==>
              (Live(slots, h) <==> Live(old(slots), h)) && (Live(slots, h) ==> At(slots, h) == At(old(slots), h))
    {
      if |name| == 0 || |name| > MAX_SERVICE_NAME_BYTES {
        return Err(InvalidName);
      }
      if image == [] || quota == 0 {
        return Err(InvalidImage);
      }
      if !AllLive(slots, dependencies) {
        return Err(InvalidDependency);
      }
      var index := FindVacant(slots);
      var before := slots;
      var handle := Handle(index, if index == |slots| then generationSeed else slots[index].generation);
      slots := Put(slots, generationSeed, index,
                   Service(handle, name, image, dependencies, Stopped, 1, 0, quota, NO_RIGHTS, source));
      WiredAdd(before, slots, handle);
      r := Ok(handle);
    }

    method SetDependencies(handle: Handle, dependencies: seq<Handle>) returns (r: Result<Unit, RegistryError>)
      requires Valid()
      modifies this`slots
      ensures Valid()
      ensures r.Ok? <==> Live(old(slots), handle) && AllLive(old(slots), dependencies)
      ensures r.Ok? ==> slots == Replaced(old(slots), handle, At(old(slots), handle).(dependencies := dependencies))
      ensures r.Err? ==> slots == old(slots)
    {
      if !AllLive(slots, dependencies) {
        return Err(InvalidDependency);
      }
      if !Live(slots, handle) {
        return Err(Stale);
      }
      var before := slots;
      slots := Replaced(slots, handle, At(slots, handle).(dependencies := dependencies));
      WiredRewire(before, slots, handle, dependencies);
      r := Ok(Unit.Unit);
    }

    /** Take a service nobody depends on out of the registry; its handle is never live again until generations wrap. */
    method Remove(handle: Handle) returns (r: Result<Unit, RegistryError>)
      requires Valid()
      modifies this`slots
      ensures Valid()
      ensures r.Ok? <==> Live(old(slots), handle) && !HasDependents(old(slots), handle)
      ensures r.Ok? ==> slots == Removed(old(slots), handle.index)
      ensures r.Err? ==> slots == old(slots) && r.error == if Live(slots, handle) then RunningDependents else Stale
    {
      if !Live(slots, handle) {
        return Err(Stale);
      }
      if HasDependents(slots, handle) {
        return Err(RunningDependents);
      }
      var before := slots;
      slots := Removed(slots, handle.index);
      WiredRemove(before, slots, handle);
      r := Ok(Unit.Unit);
    }

    /** Give a stopped service a new handle. Dependencies stay live exactly when nobody depends on the old one. */
    method ReplaceGeneration(handle: Handle) returns (r: Result<Handle, RegistryError>)
      requires Valid()
      modifies this`slots
      ensures r.Ok? <==> Live(old(slots), handle) && At(old(slots), handle).state == Stopped
      ensures r.Ok? ==> r.value != handle && r.value == Handle(handle.index, NextGeneration(handle.generation))
                        && !Live(slots, handle)
      ensures r.Ok? ==> slots == Renamed(old(slots), handle, r.value)
      ensures r.Ok? ==> (Valid() <==> !HasDependents(old(slots), handle))
      ensures r.Err? ==> slots == old(slots)
    {
      if !Live(slots, handle) {
        return Err(Stale);
      }
      var service := At(slots, handle);
      var replacement := Handle(handle.index, NextGeneration(slots[handle.index].generation));
      if service.state != Stopped {
        return Err(Capacity);
      }
      var before := slots;
      var renewed := service.(handle := replacement, epoch := NextEpoch(service.epoch),
                              restarts := if service.restarts < 255 then service.restarts + 1 else 255);
      slots := slots[handle.index := Slot(replacement.generation, Some(renewed))];
      WiredRenamed(before, slots, handle, replacement);
      r := Ok(replacement);
    }

    // --- Lifecycle requests -------------------------------------------------------

    /** Mark what an accepted request is about to change. */
    method BeginLifecycleAction(operation: Operation, handle: Handle) returns (r: Result<Action, ManagerStatus>)
      requires Valid()
      modifies this`slots
      ensures Valid()
      ensures r.Ok? <==> LifecycleStatus(old(slots), operation, handle) == StatusOk
                         && (operation == RestartOperation ==> !AffectedCycle(old(slots), handle))
      ensures r.Err? ==> slots == old(slots) && r.error == if LifecycleStatus(slots, operation, handle) != StatusOk
                         then LifecycleStatus(slots, operation, handle) else Dependency
      ensures r.Ok? && operation == StartOperation ==>
              r.value == StartAction(handle) && StatesSet(old(slots), slots, [handle], Starting)
      ensures r.Ok? && operation == StopOperation ==>
              r.value == StopAction(handle) && StatesSet(old(slots), slots, [handle], Stopping)
      ensures r.Ok? && operation == RestartOperation ==>
              r.value.RestartAction? && StatesSet(old(slots), slots, r.value.members, Stopping)
      ensures r.Ok? && operation == RestartOperation ==>
                && Distinct(r.value.members) && DependentsFirst(old(slots), r.value.members)
                && forall h :: h in r.value.members <==> Affected(old(slots), handle, h)
    {
      hide Wired, Affected, AffectedCycle, Distinct, DependentsFirst;
      var status := LifecycleStatus(slots, operation, handle);
      if status != StatusOk {
        return Err(status);
      }
      var members := [handle];
      var state := if operation == StartOperation then Starting else Stopping;
      if operation == RestartOperation {
        var closure := Closure(slots, handle);
        if closure.Err? {
          return Err(Dependency);
        }
        members := closure.value;
      }
      var after := ApplyStates(slots, members, state);
      StatesSetSameGraph(slots, after, members, state);
      WiredSameGraph(slots, after);
      slots := after;
      r := Ok(if operation == StartOperation then StartAction(handle) else
          if operation == StopOperation then StopAction(handle) else RestartAction(members));
    }

    /** Put services that were being stopped back to running: all of them or none. */
    method AbortLifecycleMembers(members: seq<Handle>) returns (status: ManagerStatus)
      requires Valid()
      modifies this`slots
      ensures Valid()
      ensures status == StatusOk <==> forall h :: h in members ==>
              Live(old(slots), h) && At(old(slots), h).state == Stopping
      ensures status == StatusOk ==> StatesSet(old(slots), slots, members, Running)
      ensures status != StatusOk ==> slots == old(slots)
    {
      hide Wired;
      for k := 0 to |members|
        invariant slots == old(slots) && forall j :: 0 <= j < k ==>
                  Live(slots, members[j]) && At(slots, members[j]).state == Stopping
      {
        if !Live(slots, members[k]) {
          return StatusStale;
        }
        if At(slots, members[k]).state != Stopping {
          return InvalidState;
        }
      }
      var after := ApplyStates(slots, members, Running);
      StatesSetSameGraph(slots, after, members, Running);
      WiredSameGraph(slots, after);
      slots := after;
      status := StatusOk;
    }

    // --- Listing ----------------------------------------------------------------

    /** One page of services from a cursor on, and the cursor of the next page. */
    method List(cursor: nat, requestId: nat) returns (r: Option<(seq<DirectoryRecord>, Option<nat>)>)
      ensures r.None? <==> requestId == 0
      ensures r.Some? ==> IsPage(slots, cursor, r.value.0, r.value.1)
    {
      if requestId == 0 {
        return None;
      }
      var page: seq<DirectoryRecord> := [];
      var index := cursor;
      while index < |slots|
        invariant cursor <= index && (index > |slots| ==> index == cursor)
        invariant |page| <= DIRECTORY_RECORDS_PER_PAGE && (|page| > 0 ==> cursor < index)
        invariant page + Entries(slots, index) == Entries(slots, cursor)
      {
        if slots[index].value.Some? {
          if |page| == DIRECTORY_RECORDS_PER_PAGE {
            return Some((page, Some(index)));
          }
          page := page + [RecordOf(slots[index].value.value)];
        }
        index := index + 1;
      }
      r := Some((page, None));
    }

    /** Following the cursors lists every service once, in slot order. */
    method ListAll(requestId: nat) returns (all: seq<DirectoryRecord>)
      requires requestId != 0
      ensures all == Entries(slots, 0)
    {
      var page := List(0, requestId);
      all := page.value.0;
      var next := page.value.1;
      while next.Some?
        invariant next.Some? ==> next.value < |slots| && all + Entries(slots, next.value) == Entries(slots, 0)
        invariant next.None? ==> all == Entries(slots, 0)
        decreases if next.Some? then |slots| - next.value + 1 else 0
      {
        page := List(next.value, requestId);
        all, next := all + page.value.0, page.value.1;
      }
    }
  }

  /** What a listing tells of a service. */
  datatype DirectoryRecord = DirectoryRecord(handle: Handle, name: string, flags: nat)

  function RecordOf(service: Service): DirectoryRecord {
    DirectoryRecord(service.handle, service.name,
                    match service.state case Disabled => 2 case Starting => 1 case Running => 1 case _ => 0)
  }

  /**
   A page holds the records from the cursor on, as many as fit, and there is a next page
   exactly when some are left.
   */
  ghost predicate IsPage(slots: Slots, cursor: nat, page: seq<DirectoryRecord>, next: Option<nat>) {
    && |page| <= DIRECTORY_RECORDS_PER_PAGE
    && match next
       case None => page == Entries(slots, cursor)
       case Some(later) =>
         && cursor < later < |slots| && page + Entries(slots, later) == Entries(slots, cursor)
         && |page| == DIRECTORY_RECORDS_PER_PAGE && Entries(slots, later) != []
  }

  /** Records of the services from a slot on. */
  function Entries(slots: Slots, from: nat): seq<DirectoryRecord>
    decreases |slots| - from
  {
    if from >= |slots| then []
    else if slots[from].value.Some? then [RecordOf(slots[from].value.value)] + Entries(slots, from + 1)
    else Entries(slots, from + 1)
  }

  lemma {:induction false} EntriesExactly(slots: Slots, from: nat, record: DirectoryRecord)
    requires Wired(slots)
    ensures record in Entries(slots, from) <==>
            Live(slots, record.handle) && record.handle.index >= from && record == RecordOf(At(slots, record.handle))
    ensures Distinct(Entries(slots, from))
    decreases |slots| - from
  {
    if from < |slots| {
      EntriesExactly(slots, from + 1, record);
      if slots[from].value.Some? {
        var first, rest := RecordOf(slots[from].value.value), Entries(slots, from + 1);
        EntriesExactly(slots, from + 1, first);
        DistinctPrepend(first, rest);
      }
    }
  }

  lemma {:induction false} DistinctPrepend(x: DirectoryRecord, s: seq<DirectoryRecord>)
    requires Distinct(s) && x !in s
    ensures Distinct([x] + s)
  {
    var all := [x] + s;
    forall i, j | 0 <= i < j < |all|
      ensures all[i] != all[j]
    {
      if i > 0 {
        DistinctAt(s, i - 1, j - 1);
      }
    }
    DistinctFrom(all);
  }

  datatype Operation = StartOperation | StopOperation | RestartOperation | OtherOperation

  datatype ManagerStatus = StatusOk | StatusStale | Busy | InvalidState | Dependency | Unsupported

  datatype Action = StartAction(handle: Handle) | StopAction(handle: Handle) | RestartAction(members: seq<Handle>)

  predicate AllLive(slots: Slots, handles: seq<Handle>) {
    forall h :: h in handles ==> Live(slots, h)
  }

  /** Some service, the one itself included, lists the handle as a dependency. */
  predicate HasDependents(slots: Slots, handle: Handle) {
    exists i :: 0 <= i < |slots| && slots[i].value.Some? && handle in slots[i].value.value.dependencies
  }

  predicate HasActiveDependents(slots: Slots, handle: Handle) {
    exists i :: 0 <= i < |slots| && slots[i].value.Some? && handle in slots[i].value.value.dependencies
                && slots[i].value.value.state != Stopped
  }

  /** Whether a lifecycle request would be accepted now. */
  function LifecycleStatus(slots: Slots, operation: Operation, handle: Handle): ManagerStatus {
    if !Live(slots, handle) then StatusStale
    else
      var service := At(slots, handle);
      var moving := service.state == Starting || service.state == Stopping;
      match operation
      case StartOperation =>
        if service.state != Stopped then (if moving then Busy else InvalidState)
        else if exists d :: d in service.dependencies
                            && !(Live(slots, d) && At(slots, d).state == Running) then Dependency
        else StatusOk
      case StopOperation =>
        if service.state != Running then (if moving then Busy else InvalidState)
        else if HasActiveDependents(slots, handle) then Dependency
        else StatusOk
      case RestartOperation => if service.state == Running then StatusOk else if moving then Busy else InvalidState
      case OtherOperation => Unsupported
  }

  /** The service runs under a new epoch; what it reaches runs; nothing else changed. */
  ghost predicate Restarted(before: Slots, after: Slots, handle: Handle) {
    && |after| == |before| && Live(before, handle)
    && (forall i :: 0 <= i < |before| && i != handle.index ==>
          after[i] == if Reaches(before, Some(handle), handle, HandleAt(before, i)) then
              WithState(before[i], Running) else before[i])
    && var service := At(before, handle);
       after[handle.index].generation == handle.generation &&
       after[handle.index].value == Some(service.(epoch := NextEpoch(service.epoch), state := Running,
                                                  restarts := if service.restarts < 255 then
           service.restarts + 1 else 255))
  }

  /** Beginning a restart and aborting it changes nothing. */
  lemma AbortUndoesRestart(before: Slots, during: Slots, after: Slots, handle: Handle, members: seq<Handle>)
    requires LifecycleStatus(before, RestartOperation, handle) == StatusOk
    requires forall h :: h in members <==> Affected(before, handle, h)
    requires StatesSet(before, during, members, Stopping) && StatesSet(during, after, members, Running)
    ensures after == before
  {
    forall h | h in members
      ensures Live(before, h) && At(before, h).state == Running
    {
      var path :| DependentPath(before, handle, h, path);
      if |path| > 1 {
        assert RunningOn(before, path[|path| - 1], path[|path| - 2]);
      }
    }
    forall i | 0 <= i < |before|
      ensures after[i] == before[i]
    {
      assert HandleAt(during, i) == HandleAt(before, i);
    }
  }

  /** An accepted abort follows every accepted restart. */
  lemma AbortAccepted(before: Slots, during: Slots, members: seq<Handle>)
    requires StatesSet(before, during, members, Stopping) && forall h :: h in members ==> Live(before, h)
    ensures forall h :: h in members ==> Live(during, h) && At(during, h).state == Stopping
  {
    forall h | h in members
      ensures Live(during, h) && At(during, h).state == Stopping
    {
      assert HandleAt(before, h.index) == h;
    }
  }

  lemma WiredAdd(before: Slots, after: Slots, handle: Handle)
    requires Wired(before) && Live(after, handle) && At(after, handle).handle == handle && !Live(before, handle)
    requires |before| <= |after| && (forall i :: 0 <= i < |after| && i != handle.index ==>
             i < |before| && after[i] == before[i])
    requires handle.index < |before| ==> before[handle.index].value.None?
    requires AllLive(before, At(after, handle).dependencies)
    ensures Wired(after)
    ensures forall h :: h != handle ==> (Live(after, h) <==> Live(before, h))
                                        && (Live(after, h) ==> At(after, h) == At(before, h))
  {
    forall h, d | Live(after, h) && d in At(after, h).dependencies
      ensures Live(after, d)
    {
      if h != handle {
        assert Live(before, h) && d in At(before, h).dependencies;
      }
      assert Live(before, d);
    }
  }

  lemma WiredRewire(before: Slots, after: Slots, handle: Handle, dependencies: seq<Handle>)
    requires Wired(before) && Live(before, handle) && AllLive(before, dependencies)
    requires after == Replaced(before, handle, At(before, handle).(dependencies := dependencies))
    ensures Wired(after)
  {
    forall h, d | Live(after, h) && d in At(after, h).dependencies
      ensures Live(after, d)
    {
      assert Live(before, h) && (h == handle || d in At(before, h).dependencies);
      assert Live(before, d);
    }
  }

  lemma WiredRemove(before: Slots, after: Slots, handle: Handle)
    requires Wired(before) && Live(before, handle) && !HasDependents(before, handle)
    requires after == Removed(before, handle.index)
    ensures Wired(after)
  {
    forall h, d | Live(after, h) && d in At(after, h).dependencies
      ensures Live(after, d)
    {
      assert Live(before, h) && d in At(before, h).dependencies;
      assert Live(before, d) && d != handle;
    }
  }

  /** A service under a new handle, in its next epoch. */
  function Renamed(slots: Slots, handle: Handle, replacement: Handle): Slots
    requires Live(slots, handle)
  {
    var service := At(slots, handle);
    slots[handle.index := Slot(replacement.generation,
                               Some(service.(handle := replacement, epoch := NextEpoch(service.epoch),
                                             restarts := if service.restarts < 255 then
        service.restarts + 1 else 255)))]
  }

  /** A stopped service with a dependent: renaming it leaves the dependent with a dead handle. */
  lemma RenamingDangles() returns (slots: Slots, handle: Handle, dependent: Handle)
    ensures Wired(slots) && Live(slots, handle) && At(slots, handle).state == Stopped
    ensures var after := Renamed(slots, handle, Handle(handle.index, NextGeneration(handle.generation)));
            Live(after, dependent) && handle in At(after, dependent).dependencies && !Live(after, handle)
                && !Wired(after)
  {
    handle, dependent := Handle(0, 1), Handle(1, 1);
    var store := Service(handle, "store", [1], [], Stopped, 1, 0, 1, NO_RIGHTS, Builtin);
    slots := [Slot(1, Some(store)), Slot(1, Some(store.(handle := dependent, name := "shell",
                                                        dependencies := [handle])))];
    var after := Renamed(slots, handle, Handle(0, 2));
    assert Live(after, dependent) && handle in At(after, dependent).dependencies;
  }

  lemma WiredRenamed(before: Slots, after: Slots, handle: Handle, replacement: Handle)
    requires Wired(before) && Live(before, handle) && replacement.index == handle.index && replacement != handle
    requires |after| == |before| && (forall i :: 0 <= i < |after| && i != handle.index ==> after[i] == before[i])
    requires Live(after, replacement) && At(after, replacement).handle == replacement
    requires At(after, replacement).dependencies == At(before, handle).dependencies
    ensures Wired(after) <==> !HasDependents(before, handle)
  {
    if HasDependents(before, handle) {
      var i :| 0 <= i < |before| && before[i].value.Some? && handle in before[i].value.value.dependencies;
      var h := if i == handle.index then replacement else HandleAt(before, i);
      assert Live(after, h) && handle in At(after, h).dependencies && !Live(after, handle);
    } else {
      forall h, d | Live(after, h) && d in At(after, h).dependencies
        ensures Live(after, d)
      {
        var was := if h == replacement then handle else h;
        assert Live(before, was) && d in At(before, was).dependencies;
        assert Live(before, d) && d != handle;
      }
    }
  }

  lemma EmptyPath(slots: Slots, seed: Option<Handle>)
    ensures Path(slots, seed, []) && Topological(slots, seed, [])
  {
  }
}

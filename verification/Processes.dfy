/**
 The process table and the address spaces its processes own.
 */
module Processes {
  import opened Common

  const MAX_USER_PROCESSES: nat := 16
  const MAX_MAPPINGS: nat := 64
  const MAX_IMAGE_BYTES: nat := 2048 * 1024
  const WORD_LIMIT: nat := 0x1_0000_0000_0000_0000

  datatype ProcessState = Vacant | Starting | Running | Exited(status: nat) | Faulted(vector: nat)

  datatype ProcessError = Capacity | InvalidImage | InvalidHandle | NotRunning | AddressSpaceError | ReadFailure

  datatype Handle = Handle(slot: nat, generation: nat)

  datatype VirtualMapping = VirtualMapping(virtualAddress: nat, physicalAddress: nat, pages: nat, flags: MappingFlags) {
    function End(): nat {
      virtualAddress + pages * PAGE_SIZE
    }
  }

  type Mappings = seq<Option<VirtualMapping>>

  datatype Space = Space(generation: nat, reserved: bool, root: Option<nat>, mappings: Mappings)

  datatype Process = Process(generation: nat, state: ProcessState, entry: nat, space: Option<Handle>)

  datatype UserLaunch = UserLaunch(entry: nat, stackTop: nat, root: nat)

  function NextGeneration(generation: nat): nat {
    var next := (generation + 1) % WORD_LIMIT;
    if next == 0 then 1 else next
  }

  function NoMappings(): (none: Mappings)
    ensures |none| == MAX_MAPPINGS && forall i :: 0 <= i < MAX_MAPPINGS ==> none[i] == None
  {
    seq(MAX_MAPPINGS, _ => None)
  }

  // --- Mappings -----------------------------------------------------------------

  /** Page-aligned, in the user half, and never writable and executable. */
  predicate MappingOk(mapping: VirtualMapping) {
    && 0 < mapping.virtualAddress && mapping.virtualAddress % PAGE_SIZE == 0 && mapping.pages > 0
    && mapping.End() <= USER_LIMIT
    && 0 < mapping.physicalAddress && mapping.physicalAddress % PAGE_SIZE == 0
    && mapping.flags.Valid()
  }

  /** A mapping of at most `limit` pages, if the request is sound. */
  function NewMapping(virtualAddress: nat, physicalAddress: nat, pages: nat, flags: MappingFlags,
                      limit: nat): (r: Option<VirtualMapping>)
    ensures r.Some? <==> MappingOk(VirtualMapping(virtualAddress, physicalAddress, pages, flags)) && pages <= limit
                         && physicalAddress + pages * PAGE_SIZE < WORD_LIMIT
    ensures r.Some? ==> r.value == VirtualMapping(virtualAddress, physicalAddress, pages, flags)
  {
    var bytes := pages * PAGE_SIZE;
    if bytes >= WORD_LIMIT || virtualAddress + bytes >= WORD_LIMIT then None
    else if virtualAddress == 0 || physicalAddress == 0 || virtualAddress % PAGE_SIZE != 0
         || physicalAddress % PAGE_SIZE != 0
         || pages == 0 || pages > limit || virtualAddress >= USER_LIMIT || virtualAddress + bytes > USER_LIMIT
         || physicalAddress + bytes >= WORD_LIMIT || !flags.Valid() then None
    else Some(VirtualMapping(virtualAddress, physicalAddress, pages, flags))
  }

  predicate Overlaps(a: VirtualMapping, b: VirtualMapping) {
    a.virtualAddress < b.End() && b.virtualAddress < a.End()
  }

  /** The mappings of a space are sound and no two of them overlap. */
  ghost predicate MappingsOk(mappings: Mappings) {
    && |mappings| == MAX_MAPPINGS
    && (forall i :: 0 <= i < |mappings| && mappings[i].Some? ==> MappingOk(mappings[i].value))
    && (forall i, j :: 0 <= i < j < |mappings| && mappings[i].Some? && mappings[j].Some? ==>
       !Overlaps(mappings[i].value, mappings[j].value))
  }

  predicate Covers(mapping: VirtualMapping, x: nat) {
    mapping.virtualAddress <= x < mapping.End()
  }

  /** No byte of a space is mapped twice. */
  lemma OneMappingPerByte(mappings: Mappings, i: nat, j: nat, x: nat)
    requires MappingsOk(mappings) && i < |mappings| && j < |mappings| && mappings[i].Some? && mappings[j].Some?
             && i != j
    ensures !(Covers(mappings[i].value, x) && Covers(mappings[j].value, x))
  {
    if i < j {
      assert !Overlaps(mappings[i].value, mappings[j].value);
    } else {
      assert !Overlaps(mappings[j].value, mappings[i].value);
    }
  }

  // --- Pairing ------------------------------------------------------------------

  function Busy(slots: seq<Process>): nat {
    if |slots| == 0 then 0 else Busy(slots[..|slots| - 1]) + if slots[|slots| - 1].state != Vacant then 1 else 0
  }

  function ReservedSpaces(spaces: seq<Space>): nat {
    if |spaces| == 0 then 0 else ReservedSpaces(spaces[..|spaces| - 1]) + if spaces[|spaces| - 1].reserved then 1 else 0
  }

  /** A space handle names a reserved space of its generation. */
  predicate Names(spaces: seq<Space>, handle: Handle) {
    handle.slot < |spaces| && spaces[handle.slot].generation == handle.generation && spaces[handle.slot].reserved
  }

  /** Processes own reserved spaces, no two the same one, and there are no others. */
  ghost predicate Paired(slots: seq<Process>, spaces: seq<Space>) {
    && (forall p :: 0 <= p < |slots| ==> (slots[p].space.Some? <==> slots[p].state != Vacant))
    && (forall p :: 0 <= p < |slots| && slots[p].space.Some? ==> Names(spaces, slots[p].space.value))
    && (forall p, q :: 0 <= p < q < |slots| && slots[p].space.Some? && slots[q].space.Some? ==>
       slots[p].space != slots[q].space)
    && Busy(slots) == ReservedSpaces(spaces)
  }

  ghost predicate SpacesOk(spaces: seq<Space>) {
    forall s :: 0 <= s < |spaces| ==> MappingsOk(spaces[s].mappings)
                                      && (!spaces[s].reserved ==>
        spaces[s].root.None? && spaces[s].mappings == NoMappings())
  }

  lemma {:induction false} BusyAfter(slots: seq<Process>, p: nat, process: Process)
    requires p < |slots|
    ensures Busy(slots[p := process]) + (if slots[p].state != Vacant then 1 else 0) == Busy(slots)
            + (if process.state != Vacant then 1 else 0)
  {
    var last := |slots| - 1;
    if p < last {
      BusyAfter(slots[..last], p, process);
      assert slots[p := process][..last] == slots[..last][p := process];
    } else {
      assert slots[p := process][..last] == slots[..last];
    }
  }

  lemma {:induction false} ReservedAfter(spaces: seq<Space>, s: nat, space: Space)
    requires s < |spaces|
    ensures ReservedSpaces(spaces[s := space]) + (if spaces[s].reserved then 1 else 0) == ReservedSpaces(spaces)
            + (if space.reserved then 1 else 0)
  {
    var last := |spaces| - 1;
    if s < last {
      ReservedAfter(spaces[..last], s, space);
      assert spaces[s := space][..last] == spaces[..last][s := space];
    } else {
      assert spaces[s := space][..last] == spaces[..last];
    }
  }

  lemma {:induction false} BusyBelow(slots: seq<Process>, p: nat)
    requires p < |slots| && slots[p].state == Vacant
    ensures Busy(slots) < |slots|
  {
    BusyAtMost(slots[..|slots| - 1]);
    if p < |slots| - 1 {
      BusyBelow(slots[..|slots| - 1], p);
    }
  }

  lemma {:induction false} BusyAtMost(slots: seq<Process>)
    ensures Busy(slots) <= |slots|
  {
    if |slots| > 0 {
      BusyAtMost(slots[..|slots| - 1]);
    }
  }

  lemma {:induction false} AllReserved(spaces: seq<Space>)
    requires forall s :: 0 <= s < |spaces| ==> spaces[s].reserved
    ensures ReservedSpaces(spaces) == |spaces|
  {
    if |spaces| > 0 {
      AllReserved(spaces[..|spaces| - 1]);
    }
  }

  lemma SpaceRemains(slots: seq<Process>, spaces: seq<Space>, p: nat)
    requires Paired(slots, spaces) && |slots| == |spaces| && p < |slots| && slots[p].state == Vacant
    ensures exists s :: 0 <= s < |spaces| && !spaces[s].reserved
  {
    BusyBelow(slots, p);
    if forall s :: 0 <= s < |spaces| ==> spaces[s].reserved {
      AllReserved(spaces);
    }
  }

  class ProcessTable {
    var slots: seq<Process>
    var spaces: seq<Space>

    ghost predicate Valid()
      reads this
    {
      |slots| == |spaces| == MAX_USER_PROCESSES && Paired(slots, spaces) && SpacesOk(spaces)
    }

    constructor ()
      ensures Valid() && forall p :: 0 <= p < MAX_USER_PROCESSES ==> slots[p].state == Vacant
    {
      slots := seq(MAX_USER_PROCESSES, _ => Process(1, Vacant, 0, None));
      spaces := seq(MAX_USER_PROCESSES, _ => Space(1, false, None, NoMappings()));
      new;
      NoneBusy(slots, spaces);
    }

    /** The handle is of the slot's current generation. */
    predicate Current(handle: Handle)
      reads this
    {
      handle.slot < |slots| && slots[handle.slot].generation == handle.generation
    }

    predicate IsRunning(handle: Handle)
      reads this
    {
      Current(handle) && slots[handle.slot].state == Running
    }

    /** Reserve the first vacant space. */
    method Reserve() returns (r: Result<Handle, ProcessError>)
      requires |spaces| == MAX_USER_PROCESSES
      modifies this`spaces
      ensures r.Ok? <==> exists s :: 0 <= s < MAX_USER_PROCESSES && !old(spaces)[s].reserved
      ensures r.Ok? ==> r.value.slot < |old(spaces)| && r.value.generation == old(spaces)[r.value.slot].generation
                        && !old(spaces)[r.value.slot].reserved
      ensures r.Ok? ==> spaces == old(spaces)[r.value.slot := Space(r.value.generation, true, None, NoMappings())]
      ensures r.Err? ==> spaces == old(spaces) && r.error == Capacity
    {
      for s := 0 to |spaces|
        invariant spaces == old(spaces) && forall t :: 0 <= t < s ==> spaces[t].reserved
      {
        if !spaces[s].reserved {
          spaces := spaces[s := Space(spaces[s].generation, true, None, NoMappings())];
          return Ok(Handle(s, spaces[s].generation));
        }
      }
      r := Err(Capacity);
    }

    /** Start a process in the first vacant slot; a space for it is always to be had. */
    method StartPlan(entry: nat) returns (r: Result<Handle, ProcessError>)
      requires Valid()
      modifies this
      ensures Valid()
      ensures r.Ok? <==> exists p :: 0 <= p < MAX_USER_PROCESSES && old(slots)[p].state == Vacant
      ensures r.Err? ==> unchanged(this) && r.error == Capacity
      ensures r.Ok? ==> Started(old(slots), old(spaces), slots, spaces, r.value) && slots[r.value.slot].entry == entry
      ensures r.Ok? ==> IsRunning(r.value)
    {
      hide Paired, SpacesOk;
      for p := 0 to |slots|
        invariant unchanged(this) && forall q :: 0 <= q < p ==> slots[q].state != Vacant
      {
        if slots[p].state == Vacant {
          SpaceRemains(slots, spaces, p);
          var before := spaces;
          var space := Reserve();
          var process := Process(slots[p].generation, Running, entry, Some(space.value));
          PairedStart(slots, before, spaces, p, process);
          slots := slots[p := process];
          return Ok(Handle(p, process.generation));
        }
      }
      r := Err(Capacity);
    }

    /** Run an operation on a running process's space. */
    method BindRoot(handle: Handle, root: nat) returns (r: Result<Unit, ProcessError>)
      requires Valid()
      modifies this`spaces
      ensures Valid()
      ensures r.Ok? <==> IsRunning(handle) && SpaceOf(slots, old(spaces), handle).root.None?
      ensures r.Ok? ==> spaces == WithSpace(slots, old(spaces), handle,
                                            SpaceOf(slots, old(spaces), handle).(root := Some(root)))
      ensures r.Err? ==> spaces == old(spaces)
    {
      if !Current(handle) {
        return Err(InvalidHandle);
      }
      if slots[handle.slot].state != Running {
        return Err(NotRunning);
      }
      var space := SpaceOf(slots, spaces, handle);
      if space.root.Some? {
        return Err(AddressSpaceError);
      }
      PairedSpace(slots, spaces, handle, space.(root := Some(root)));
      spaces := WithSpace(slots, spaces, handle, space.(root := Some(root)));
      r := Ok(Unit.Unit);
    }

    /** Add a mapping that overlaps no other to the first free entry. */
    method Map(handle: Handle, mapping: VirtualMapping) returns (r: Result<Unit, ProcessError>)
      requires Valid() && MappingOk(mapping)
      modifies this`spaces
      ensures Valid()
      ensures r.Ok? <==> IsRunning(handle) && Mappable(SpaceOf(slots, old(spaces), handle), mapping)
      ensures r.Ok? ==> exists i :: MappedAt(SpaceOf(slots, old(spaces), handle), SpaceOf(slots, spaces, handle), i,
                                             mapping)
      ensures r.Ok? ==> spaces == WithSpace(slots, old(spaces), handle, SpaceOf(slots, spaces, handle))
      ensures r.Err? ==> spaces == old(spaces)
    {
      hide Paired;
      if !Current(handle) {
        return Err(InvalidHandle);
      }
      if slots[handle.slot].state != Running {
        return Err(NotRunning);
      }
      PairedAt(slots, spaces, handle);
      var space := SpaceOf(slots, spaces, handle);
      if space.root.None? || !Clear(space.mappings, mapping) {
        return Err(AddressSpaceError);
      }
      for i := 0 to |space.mappings|
        invariant spaces == old(spaces) && forall j :: 0 <= j < i ==> space.mappings[j] != None
      {
        if space.mappings[i].None? {
          var mapped := space.(mappings := space.mappings[i := Some(mapping)]);
          MappingsAdded(space.mappings, i, mapping);
          PairedSpace(slots, spaces, handle, mapped);
          spaces := WithSpace(slots, spaces, handle, mapped);
          assert MappedAt(space, SpaceOf(slots, spaces, handle), i, mapping);
          return Ok(Unit.Unit);
        }
      }
      r := Err(Capacity);
    }

    method Unmap(handle: Handle, index: nat) returns (r: Result<VirtualMapping, ProcessError>)
      requires Valid()
      modifies this`spaces
      ensures Valid()
      ensures r.Ok? <==> IsRunning(handle) && index < MAX_MAPPINGS
                         && SpaceOf(slots, old(spaces), handle).mappings[index].Some?
      ensures r.Ok? ==> MappedAt(SpaceOf(slots, spaces, handle), SpaceOf(slots, old(spaces), handle), index, r.value)
      ensures r.Ok? ==> spaces == WithSpace(slots, old(spaces), handle, SpaceOf(slots, spaces, handle))
      ensures r.Err? ==> spaces == old(spaces)
    {
      hide Paired;
      if !Current(handle) {
        return Err(InvalidHandle);
      }
      if slots[handle.slot].state != Running {
        return Err(NotRunning);
      }
      PairedAt(slots, spaces, handle);
      var space := SpaceOf(slots, spaces, handle);
      if index >= |space.mappings| || space.mappings[index].None? {
        return Err(AddressSpaceError);
      }
      PairedSpace(slots, spaces, handle, space.(mappings := space.mappings[index := None]));
      spaces := WithSpace(slots, spaces, handle, space.(mappings := space.mappings[index := None]));
      r := Ok(space.mappings[index].value);
    }

    /** What entering a process needs, once its space has a root. */
    method Launch(handle: Handle, entry: nat, stackTop: nat) returns (r: Result<UserLaunch, ProcessError>)
      requires Valid()
      ensures r.Ok? <==> IsRunning(handle) && SpaceOf(slots, spaces, handle).root.Some? && Enterable(entry, stackTop)
      ensures r.Ok? ==> r.value == UserLaunch(entry, stackTop, SpaceOf(slots, spaces, handle).root.value)
    {
      if !Current(handle) {
        return Err(InvalidHandle);
      }
      if slots[handle.slot].state != Running {
        return Err(NotRunning);
      }
      var root := SpaceOf(slots, spaces, handle).root;
      if root.None? || !Enterable(entry, stackTop) {
        return Err(AddressSpaceError);
      }
      r := Ok(UserLaunch(entry, stackTop, root.value));
    }

    method Exit(handle: Handle, status: nat) returns (r: Result<Unit, ProcessError>)
      requires Valid()
      modifies this`slots
      ensures Valid() && (r.Ok? <==> old(IsRunning(handle)))
      ensures slots == if r.Ok? then old(slots)[handle.slot := old(slots)[handle.slot].(state := Exited(status))]
                                     else old(slots)
    {
      r := End(handle, Exited(status));
    }

    method Fault(handle: Handle, vector: nat) returns (r: Result<Unit, ProcessError>)
      requires Valid()
      modifies this`slots
      ensures Valid() && (r.Ok? <==> old(IsRunning(handle)))
      ensures slots == if r.Ok? then old(slots)[handle.slot := old(slots)[handle.slot].(state := Faulted(vector))]
                                     else old(slots)
    {
      r := End(handle, Faulted(vector));
    }

    method End(handle: Handle, state: ProcessState) returns (r: Result<Unit, ProcessError>)
      requires Valid() && (state.Exited? || state.Faulted?)
      modifies this`slots
      ensures Valid() && (r.Ok? <==> old(IsRunning(handle)))
      ensures slots == if r.Ok? then old(slots)[handle.slot := old(slots)[handle.slot].(state := state)] else old(slots)
    {
      if !Current(handle) {
        return Err(InvalidHandle);
      }
      if slots[handle.slot].state != Running {
        return Err(NotRunning);
      }
      BusyAfter(slots, handle.slot, slots[handle.slot].(state := state));
      slots := slots[handle.slot := slots[handle.slot].(state := state)];
      r := Ok(Unit.Unit);
    }

    /** Release an ended process's space and vacate its slot. */
    method Reclaim(handle: Handle) returns (r: Result<Unit, ProcessError>)
      requires Valid()
      modifies this
      ensures Valid()
      ensures r.Ok? <==>
              && old(Current(handle))
              && (old(slots)[handle.slot].state.Exited? || old(slots)[handle.slot].state.Faulted?)
      ensures r.Ok? ==> Vacated(old(slots), old(spaces), slots, spaces, handle)
      ensures r.Err? ==> unchanged(this)
    {
      hide SpacesOk, Busy, ReservedSpaces;
      if !Current(handle) {
        return Err(InvalidHandle);
      }
      var process := slots[handle.slot];
      if !(process.state.Exited? || process.state.Faulted?) {
        return Err(NotRunning);
      }
      var s := process.space.value.slot;
      PairedReclaim(slots, spaces, handle);
      spaces := spaces[s := Space(NextGeneration(spaces[s].generation), false, None, NoMappings())];
      slots := slots[handle.slot := Process(NextGeneration(process.generation), Vacant, 0, None)];
      r := Ok(Unit.Unit);
    }
  }

  predicate Enterable(entry: nat, stackTop: nat) {
    0 < entry < USER_LIMIT && 0 < stackTop <= USER_LIMIT && stackTop % PAGE_SIZE == 0
  }

  /** The space of a process. */
  function SpaceOf(slots: seq<Process>, spaces: seq<Space>, handle: Handle): Space
    requires handle.slot < |slots| && slots[handle.slot].space.Some? && slots[handle.slot].space.value.slot < |spaces|
  {
    spaces[slots[handle.slot].space.value.slot]
  }

  function WithSpace(slots: seq<Process>, spaces: seq<Space>, handle: Handle, space: Space): seq<Space>
    requires handle.slot < |slots| && slots[handle.slot].space.Some? && slots[handle.slot].space.value.slot < |spaces|
  {
    spaces[slots[handle.slot].space.value.slot := space]
  }

  predicate Clear(mappings: Mappings, mapping: VirtualMapping) {
    forall i :: 0 <= i < |mappings| && mappings[i].Some? ==> !Overlaps(mappings[i].value, mapping)
  }

  /** The space has a root, a free entry, and nothing that overlaps the mapping. */
  predicate Mappable(space: Space, mapping: VirtualMapping) {
    space.root.Some? && Clear(space.mappings, mapping) && None in space.mappings
  }

  /** The second space has one mapping more. */
  predicate MappedAt(before: Space, after: Space, i: nat, mapping: VirtualMapping) {
    && i < |before.mappings| && before.mappings[i].None?
    && after == before.(mappings := before.mappings[i := Some(mapping)])
  }

  lemma MappingsAdded(mappings: Mappings, i: nat, mapping: VirtualMapping)
    requires MappingsOk(mappings) && i < |mappings| && mappings[i].None? && MappingOk(mapping)
             && Clear(mappings, mapping)
    ensures MappingsOk(mappings[i := Some(mapping)])
  {
  }

  /** One slot that was vacant runs a process with an empty space that was vacant. */
  ghost predicate Started(slots: seq<Process>, spaces: seq<Space>, slots': seq<Process>, spaces': seq<Space>,
                          handle: Handle) {
    && handle.slot < |slots| && slots[handle.slot].state == Vacant && slots[handle.slot].generation == handle.generation
    && |slots'| == |slots| && slots' == slots[handle.slot := slots'[handle.slot]]
    && slots'[handle.slot].state == Running && slots'[handle.slot].generation == handle.generation
    && slots'[handle.slot].space.Some?
    && var space := slots'[handle.slot].space.value;
       && space.slot < |spaces| && !spaces[space.slot].reserved
       && spaces' == spaces[space.slot := Space(space.generation, true, None, NoMappings())]
  }

  /** One slot and its space are vacant under the next generation. */
  ghost predicate Vacated(slots: seq<Process>, spaces: seq<Space>, slots': seq<Process>, spaces': seq<Space>,
                          handle: Handle) {
    && handle.slot < |slots| && slots[handle.slot].space.Some? && Names(spaces, slots[handle.slot].space.value)
    && slots' == slots[handle.slot := Process(NextGeneration(handle.generation), Vacant, 0, None)]
    && var space := slots[handle.slot].space.value;
       spaces' == spaces[space.slot := Space(NextGeneration(space.generation), false, None, NoMappings())]
  }

  lemma {:induction false} NoneBusy(slots: seq<Process>, spaces: seq<Space>)
    requires forall p :: 0 <= p < |slots| ==> slots[p].state == Vacant
    requires forall s :: 0 <= s < |spaces| ==> !spaces[s].reserved
    ensures Busy(slots) == 0 == ReservedSpaces(spaces)
    decreases |slots| + |spaces|
  {
    if |slots| > 0 {
      NoneBusy(slots[..|slots| - 1], spaces);
    } else if |spaces| > 0 {
      NoneBusy(slots, spaces[..|spaces| - 1]);
    }
  }

  lemma PairedAt(slots: seq<Process>, spaces: seq<Space>, handle: Handle)
    requires Paired(slots, spaces) && handle.slot < |slots| && slots[handle.slot].state != Vacant
    ensures slots[handle.slot].space.Some? && Names(spaces, slots[handle.slot].space.value)
  {
  }

  lemma PairedStart(slots: seq<Process>, spaces: seq<Space>, spaces': seq<Space>, p: nat, process: Process)
    requires Paired(slots, spaces) && SpacesOk(spaces) && p < |slots| && slots[p].state == Vacant
             && process.state == Running && process.space.Some?
    requires process.space.value.slot < |spaces| && !spaces[process.space.value.slot].reserved
    requires spaces' == spaces[process.space.value.slot :=
                               Space(process.space.value.generation, true, None, NoMappings())]
    ensures Paired(slots[p := process], spaces') && SpacesOk(spaces')
  {
    hide Busy, ReservedSpaces;
    BusyAfter(slots, p, process);
    ReservedAfter(spaces, process.space.value.slot, spaces'[process.space.value.slot]);
  }

  lemma PairedSpace(slots: seq<Process>, spaces: seq<Space>, handle: Handle, space: Space)
    requires Paired(slots, spaces) && SpacesOk(spaces) && handle.slot < |slots| && slots[handle.slot].state != Vacant
    requires slots[handle.slot].space.Some? && slots[handle.slot].space.value.slot < |spaces|
    requires MappingsOk(space.mappings) && space.reserved
             && space.generation == SpaceOf(slots, spaces, handle).generation
    ensures Paired(slots, WithSpace(slots, spaces, handle, space)) && SpacesOk(WithSpace(slots, spaces, handle, space))
  {
    hide Busy, ReservedSpaces, MappingsOk;
    ReservedAfter(spaces, slots[handle.slot].space.value.slot, space);
  }

  lemma PairedReclaim(slots: seq<Process>, spaces: seq<Space>, handle: Handle)
    requires Paired(slots, spaces) && SpacesOk(spaces) && handle.slot < |slots| && slots[handle.slot].state != Vacant
    ensures slots[handle.slot].space.Some? && Names(spaces, slots[handle.slot].space.value)
    ensures var s := slots[handle.slot].space.value.slot;
            var spaces' := spaces[s := Space(NextGeneration(spaces[s].generation), false, None, NoMappings())];
            Paired(slots[handle.slot := Process(NextGeneration(slots[handle.slot].generation), Vacant, 0, None)],
                   spaces') && SpacesOk(spaces')
  {
    hide Busy, ReservedSpaces;
    var s := slots[handle.slot].space.value.slot;
    BusyAfter(slots, handle.slot, Process(NextGeneration(slots[handle.slot].generation), Vacant, 0, None));
    ReservedAfter(spaces, s, Space(NextGeneration(spaces[s].generation), false, None, NoMappings()));
    NamesOne(slots, spaces, handle.slot);
  }

  /** Two processes never name the same space slot. */
  lemma NamesOne(slots: seq<Process>, spaces: seq<Space>, p: nat)
    requires Paired(slots, spaces) && p < |slots| && slots[p].space.Some?
    ensures forall q :: 0 <= q < |slots| && q != p && slots[q].space.Some? ==>
            slots[q].space.value.slot != slots[p].space.value.slot
  {
    forall q | 0 <= q < |slots| && q != p && slots[q].space.Some?
      ensures slots[q].space.value.slot != slots[p].space.value.slot
    {
      assert Names(spaces, slots[p].space.value) && Names(spaces, slots[q].space.value);
      assert if q < p then slots[q].space != slots[p].space else slots[p].space != slots[q].space;
    }
  }
}

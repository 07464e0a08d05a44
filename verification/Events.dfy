/**
 Events that services signal and the event sets they wait on. A signal is latched until
 a wait consumes it. `woken` lists the sets whose waiters were woken, in order.
 */
module Events {
  import opened Common
  import opened HandleSlots

  const NO_DEADLINE: nat := 0xffff_ffff_ffff_ffff

  datatype Event = Event(owner: Handle, signaled: bool)

  datatype EventSet = EventSet(owner: Handle, members: seq<Handle>, waiting: bool, invalidated: bool)

  datatype EventError = Stale | Unauthorized | Capacity | Duplicate | NotMember | InvalidDeadline | Busy

  datatype EventWait = Ready(event: Handle) | Pending | Timeout

  type EventTable = seq<Slot<Event>>

  type SetTable = seq<Slot<EventSet>>

  // --- Members ------------------------------------------------------------------

  /** A set lists live events of its own owner, each once. */
  ghost predicate MembersOk(events: EventTable, eventSet: EventSet) {
    Distinct(eventSet.members) && forall m :: m in eventSet.members ==>
        Live(events, m) && At(events, m).owner == eventSet.owner
  }

  ghost predicate Consistent(events: EventTable, sets: SetTable) {
    forall i :: 0 <= i < |sets| && sets[i].value.Some? ==> MembersOk(events, sets[i].value.value)
  }

  function Without(members: seq<Handle>, event: Handle): seq<Handle> {
    if |members| == 0 then []
    else if members[|members| - 1] == event then Without(members[..|members| - 1], event)
    else Without(members[..|members| - 1], event) + [members[|members| - 1]]
  }

  lemma {:induction false} WithoutRest(members: seq<Handle>, event: Handle)
    ensures forall m :: m in Without(members, event) <==> m in members && m != event
    ensures Distinct(members) ==> Distinct(Without(members, event))
  {
    if |members| > 0 {
      var last, rest := members[|members| - 1], members[..|members| - 1];
      WithoutRest(rest, event);
      if last != event && Distinct(members) {
        DistinctAppend(Without(rest, event), last);
      }
    }
  }

  /** What destroying an event leaves of a set. */
  function Severed(eventSet: EventSet, event: Handle): EventSet {
    if event in eventSet.members then eventSet.(members := Without(eventSet.members, event), waiting := false,
                                                invalidated := true) else eventSet
  }

  lemma SeveredOk(events: EventTable, events': EventTable, eventSet: EventSet, event: Handle)
    requires MembersOk(events, eventSet)
    requires forall h :: h != event && Live(events, h) ==> Live(events', h) && At(events', h) == At(events, h)
    ensures MembersOk(events', Severed(eventSet, event))
  {
    WithoutRest(eventSet.members, event);
  }

  // --- Waiters ------------------------------------------------------------------

  predicate Waits(eventSet: EventSet, event: Handle) {
    eventSet.waiting && event in eventSet.members
  }

  /** The sets below `count` that wait for an event. */
  function Waiters(sets: SetTable, event: Handle, count: nat): seq<Handle>
    requires count <= |sets|
  {
    if count == 0 then []
    else
      var earlier := Waiters(sets, event, count - 1);
      if sets[count - 1].value.Some? && Waits(sets[count - 1].value.value, event)
          then earlier + [HandleAt(sets, count - 1)] else earlier
  }

  lemma {:induction false} WaitersExactly(sets: SetTable, event: Handle, count: nat, h: Handle)
    requires count <= |sets|
    ensures h in Waiters(sets, event, count) <==> h.index < count && Live(sets, h) && Waits(At(sets, h), event)
  {
    if count > 0 {
      WaitersExactly(sets, event, count - 1, h);
    }
  }

  class EventRegistry {
    var events: EventTable
    var sets: SetTable
    var generationSeed: nat
    var woken: seq<Handle>
    var verdicts: seq<bool>

    ghost predicate Valid()
      reads this
    {
      generationSeed != 0 && Numbered(events) && Numbered(sets) && Consistent(events, sets)
    }

    constructor (generation: nat, verdicts: seq<bool>)
      ensures Valid() && events == [] && sets == [] && woken == [] && this.verdicts == verdicts
    {
      events, sets, woken := [], [], [];
      this.verdicts := verdicts;
      generationSeed := if generation == 0 then 1 else generation;
    }

    method CreateEvent(owner: Handle) returns (r: Result<Handle, EventError>)
      requires Valid()
      modifies this`events, this`verdicts
      ensures Valid()
      ensures r.Ok? <==> owner.Valid() && HasRoom(old(events), old(verdicts))
      ensures r.Err? ==> events == old(events) && r.error == if owner.Valid() then Capacity else Unauthorized
      ensures verdicts == if owner.Valid() then VerdictsLeft(old(events), old(verdicts)) else old(verdicts)
      ensures r.Ok? ==> r.value.Valid() && Added(old(events), events, r.value, Event(owner, false))
    {
      if !owner.Valid() {
        return Err(Unauthorized);
      }
      var index;
      index, verdicts := FindRoom(events, verdicts);
      if index.None? {
        return Err(Capacity);
      }
      PutLive(events, generationSeed, index.value, Event(owner, false));
      events := Put(events, generationSeed, index.value, Event(owner, false));
      r := Ok(HandleAt(events, index.value));
    }

    method CreateSet(owner: Handle) returns (r: Result<Handle, EventError>)
      requires Valid()
      modifies this`sets, this`verdicts
      ensures Valid()
      ensures r.Ok? <==> owner.Valid() && HasRoom(old(sets), old(verdicts))
      ensures r.Err? ==> sets == old(sets) && r.error == if owner.Valid() then Capacity else Unauthorized
      ensures verdicts == if owner.Valid() then VerdictsLeft(old(sets), old(verdicts)) else old(verdicts)
      ensures r.Ok? ==> r.value.Valid() && Added(old(sets), sets, r.value, EventSet(owner, [], false, false))
    {
      if !owner.Valid() {
        return Err(Unauthorized);
      }
      var index;
      index, verdicts := FindRoom(sets, verdicts);
      if index.None? {
        return Err(Capacity);
      }
      PutLive(sets, generationSeed, index.value, EventSet(owner, [], false, false));
      sets := Put(sets, generationSeed, index.value, EventSet(owner, [], false, false));
      r := Ok(HandleAt(sets, index.value));
    }

    method Add(owner: Handle, eventSet: Handle, event: Handle) returns (r: Result<Unit, EventError>)
      requires Valid()
      modifies this`sets, this`verdicts
      ensures Valid()
      ensures r.Ok? <==> Addable(events, old(sets), owner, eventSet, event) && Agrees(old(verdicts))
      ensures r == Err(Capacity) <==> Addable(events, old(sets), owner, eventSet, event) && !Agrees(old(verdicts))
      ensures r.Ok? ==> sets == Replaced(old(sets), eventSet,
                                         At(old(sets), eventSet).(members := At(old(sets), eventSet).members + [event]))
      ensures r.Err? ==> sets == old(sets)
    {
      if !Live(events, event) {
        return Err(Stale);
      }
      if At(events, event).owner != owner {
        return Err(Unauthorized);
      }
      if !Live(sets, eventSet) {
        return Err(Stale);
      }
      var record := At(sets, eventSet);
      if record.owner != owner {
        return Err(Unauthorized);
      }
      if record.invalidated {
        return Err(Stale);
      }
      if record.waiting {
        return Err(Busy);
      }
      if event in record.members {
        return Err(Duplicate);
      }
      var room := Agrees(verdicts);
      verdicts := LaterVerdicts(verdicts);
      if !room {
        return Err(Capacity);
      }
      DistinctAppend(record.members, event);
      sets := Replaced(sets, eventSet, record.(members := record.members + [event]));
      r := Ok(Unit.Unit);
    }

    method Remove(owner: Handle, eventSet: Handle, event: Handle) returns (r: Result<Unit, EventError>)
      requires Valid()
      modifies this`sets
      ensures Valid()
      ensures r.Ok? <==> Usable(old(sets), owner, eventSet) && event in At(old(sets), eventSet).members
      ensures r.Ok? ==> sets == Replaced(old(sets), eventSet,
                                         At(old(sets), eventSet).(members := Without(At(old(sets), eventSet).members,
              event)))
      ensures r.Err? ==> sets == old(sets)
    {
      if !Live(sets, eventSet) {
        return Err(Stale);
      }
      var record := At(sets, eventSet);
      if record.owner != owner {
        return Err(Unauthorized);
      }
      if record.invalidated {
        return Err(Stale);
      }
      if record.waiting {
        return Err(Busy);
      }
      if event !in record.members {
        return Err(NotMember);
      }
      WithoutRest(record.members, event);
      sets := Replaced(sets, eventSet, record.(members := Without(record.members, event)));
      r := Ok(Unit.Unit);
    }

    /** Latch a signal and wake whoever waits for it. */
    method SignalIrq(event: Handle) returns (r: Result<Unit, EventError>)
      requires Valid()
      modifies this`events, this`woken
      ensures Valid()
      ensures r.Ok? <==> Live(old(events), event)
      ensures r.Ok? ==> events == Replaced(old(events), event, At(old(events), event).(signaled := true))
      ensures r.Ok? ==> woken == old(woken) + Waiters(sets, event, |sets|)
      ensures r.Err? ==> events == old(events) && woken == old(woken)
    {
      if !Live(events, event) {
        return Err(Stale);
      }
      ReplacedLive(events, event, At(events, event).(signaled := true));
      events := Replaced(events, event, At(events, event).(signaled := true));
      WakeWaiters(event);
      r := Ok(Unit.Unit);
    }

    method Signal(owner: Handle, event: Handle) returns (r: Result<Unit, EventError>)
      requires Valid()
      modifies this`events, this`woken
      ensures Valid()
      ensures r.Ok? <==> Live(old(events), event) && At(old(events), event).owner == owner
      ensures r.Ok? ==> events == Replaced(old(events), event, At(old(events), event).(signaled := true))
      ensures r.Ok? ==> woken == old(woken) + Waiters(sets, event, |sets|)
      ensures r.Err? ==> events == old(events) && woken == old(woken)
    {
      if !Live(events, event) {
        return Err(Stale);
      }
      if At(events, event).owner != owner {
        return Err(Unauthorized);
      }
      r := SignalIrq(event);
    }

    method WakeWaiters(event: Handle)
      modifies this`woken
      ensures woken == old(woken) + Waiters(sets, event, |sets|)
    {
      for index := 0 to |sets|
        invariant woken == old(woken) + Waiters(sets, event, index)
      {
        if sets[index].value.Some? && Waits(sets[index].value.value, event) {
          woken := woken + [HandleAt(sets, index)];
        }
      }
    }

    /** Consume the first signaled member, or say why there is none to wait for. */
    method WaitAny(owner: Handle, eventSet: Handle, now: nat, deadline: Option<nat>)
        returns (r: Result<EventWait, EventError>)
      requires Valid()
      modifies this`events, this`sets
      ensures Valid()
      ensures r.Ok? <==> !Late(deadline, now) && Owned(old(sets), owner, eventSet)
      ensures r.Err? ==> events == old(events) && sets == old(sets)
      ensures r.Ok? ==> (r.value.Ready? <==> exists m :: m in At(old(sets), eventSet).members
                                                         && At(old(events), m).signaled)
      ensures r.Ok? && r.value.Ready? ==> r.value.event in At(old(sets), eventSet).members
                                          && Live(old(events), r.value.event) && At(old(events), r.value.event).signaled
      ensures r.Ok? && r.value.Ready? ==> events
                                          == Replaced(old(events), r.value.event, At(old(events),
              r.value.event).(signaled := false))
      ensures r.Ok? && !r.value.Ready? ==> events == old(events)
      ensures r.Ok? ==> sets == Replaced(old(sets), eventSet, At(old(sets), eventSet).(waiting := r.value == Pending))
      ensures r.Ok? && r.value == Timeout ==> Limit(deadline) != NO_DEADLINE && now >= Limit(deadline)
      ensures r.Ok? && r.value == Pending ==> Limit(deadline) == NO_DEADLINE || now < Limit(deadline)
    {
      var limit := Limit(deadline);
      if limit != NO_DEADLINE && limit < now {
        return Err(InvalidDeadline);
      }
      if !Live(sets, eventSet) {
        return Err(Stale);
      }
      var record := At(sets, eventSet);
      if record.owner != owner {
        return Err(Unauthorized);
      }
      if record.invalidated {
        return Err(Stale);
      }
      assert MembersOk(events, record);
      for index := 0 to |record.members|
        invariant events == old(events) && sets == old(sets)
        invariant forall j :: 0 <= j < index ==> !At(events, record.members[j]).signaled
      {
        var event := record.members[index];
        assert event in record.members;
        if At(events, event).signaled {
          ReplacedLive(events, event, At(events, event).(signaled := false));
          events := Replaced(events, event, At(events, event).(signaled := false));
          sets := Replaced(sets, eventSet, record.(waiting := false));
          return Ok(Ready(event));
        }
      }
      if limit != NO_DEADLINE && now >= limit {
        sets := Replaced(sets, eventSet, record.(waiting := false));
        r := Ok(Timeout);
      } else {
        sets := Replaced(sets, eventSet, record.(waiting := true));
        r := Ok(Pending);
      }
    }

    method CancelWait(owner: Handle, eventSet: Handle) returns (r: Result<Unit, EventError>)
      requires Valid()
      modifies this`sets, this`woken
      ensures Valid()
      ensures r.Ok? <==> Owned(old(sets), owner, eventSet)
      ensures r.Ok? ==> sets == Replaced(old(sets), eventSet, At(old(sets), eventSet).(waiting := false))
      ensures r.Ok? ==> woken == if At(old(sets), eventSet).waiting then old(woken) + [eventSet] else old(woken)
      ensures r.Err? ==> sets == old(sets) && woken == old(woken)
    {
      if !Live(sets, eventSet) {
        return Err(Stale);
      }
      var record := At(sets, eventSet);
      if record.owner != owner {
        return Err(Unauthorized);
      }
      if record.invalidated {
        return Err(Stale);
      }
      sets := Replaced(sets, eventSet, record.(waiting := false));
      if record.waiting {
        woken := woken + [eventSet];
      }
      r := Ok(Unit.Unit);
    }

    /** Take an event away from its owner and from every set; sets that had it are invalid from then on. */
    method DestroyEvent(owner: Handle, event: Handle) returns (r: Result<Unit, EventError>)
      requires Valid()
      modifies this`events, this`sets, this`woken
      ensures Valid()
      ensures r.Ok? <==> Live(old(events), event) && At(old(events), event).owner == owner
      ensures r.Ok? ==> events == Removed(old(events), event.index) && AllSevered(old(sets), sets, event)
      ensures r.Ok? ==> woken == old(woken) + Waiters(old(sets), event, |old(sets)|)
      ensures r.Err? ==> events == old(events) && sets == old(sets) && woken == old(woken)
    {
      hide Consistent, Waiters;
      if !Live(events, event) {
        return Err(Stale);
      }
      if At(events, event).owner != owner {
        return Err(Unauthorized);
      }
      WakeWaiters(event);
      ghost var before := events;
      RemovedLive(events, event);
      events := Removed(events, event.index);
      SeverAll(event);
      ConsistentSevered(before, events, old(sets), sets, event);
      r := Ok(Unit.Unit);
    }

    method SeverAll(event: Handle)
      modifies this`sets
      ensures AllSevered(old(sets), sets, event)
    {
      for index := 0 to |sets|
        invariant |sets| == |old(sets)|
        invariant forall i :: 0 <= i < index ==> sets[i] == SeveredSlot(old(sets)[i], event)
        invariant forall i :: index <= i < |sets| ==> sets[i] == old(sets)[i]
      {
        if sets[index].value.Some? {
          sets := sets[index := sets[index].(value := Some(Severed(sets[index].value.value, event)))];
        }
      }
    }

    method DestroySet(owner: Handle, eventSet: Handle) returns (r: Result<Unit, EventError>)
      requires Valid()
      modifies this`sets, this`woken
      ensures Valid()
      ensures r.Ok? <==> Live(old(sets), eventSet) && At(old(sets), eventSet).owner == owner
      ensures r.Ok? ==> sets == Removed(old(sets), eventSet.index)
      ensures r.Ok? ==> woken == if At(old(sets), eventSet).waiting then old(woken) + [eventSet] else old(woken)
      ensures r.Err? ==> sets == old(sets) && woken == old(woken)
    {
      if !Live(sets, eventSet) {
        return Err(Stale);
      }
      if At(sets, eventSet).owner != owner {
        return Err(Unauthorized);
      }
      if At(sets, eventSet).waiting {
        woken := woken + [eventSet];
      }
      sets := Removed(sets, eventSet.index);
      r := Ok(Unit.Unit);
    }

    /** Destroy everything a service owns, and nothing else. */
    method DestroyService(owner: Handle)
      requires Valid()
      modifies this`events, this`sets, this`woken
      ensures Valid()
      ensures KeepsOnly(old(events), events, owner)
      ensures KeepsOnlySets(old(sets), sets, owner)
    {
      hide Consistent;
      DestroyEvents(owner);
      DestroySets(owner);
    }

    method DestroyEvents(owner: Handle)
      requires Valid()
      modifies this`events, this`sets, this`woken
      ensures Valid()
      ensures KeepsOnly(old(events), events, owner)
      ensures |sets| == |old(sets)| && forall i :: 0 <= i < |sets| ==> SameOrOwned(old(sets)[i], sets[i], owner)
    {
      hide Consistent, AllSevered;
      for index := 0 to |events|
        invariant Valid() && |events| == |old(events)|
        invariant forall i :: 0 <= i < index ==> KeptSlot(old(events)[i], events[i], owner)
        invariant forall i :: index <= i < |events| ==> events[i] == old(events)[i]
        invariant |sets| == |old(sets)| && forall i :: 0 <= i < |sets| ==> SameOrOwned(old(sets)[i], sets[i], owner)
      {
        if events[index].value.Some? && events[index].value.value.owner == owner {
          ghost var eventsBefore, setsBefore := events, sets;
          var event := HandleAt(events, index);
          WakeWaiters(event);
          var _ := DestroyEvent(owner, event);
          OnlyOwnSevered(eventsBefore, setsBefore, sets, event, owner);
        }
      }
      KeptSlots(old(events), events, owner);
    }

    method DestroySets(owner: Handle)
      requires Valid()
      modifies this`sets, this`woken
      ensures Valid()
      ensures |sets| == |old(sets)| && forall i :: 0 <= i < |sets| ==> KeptSet(old(sets)[i], sets[i], owner)
    {
      hide Consistent;
      for index := 0 to |sets|
        invariant Valid() && |sets| == |old(sets)|
        invariant forall i :: 0 <= i < index ==> KeptSet(old(sets)[i], sets[i], owner)
        invariant forall i :: index <= i < |sets| ==> sets[i] == old(sets)[i]
      {
        if sets[index].value.Some? && sets[index].value.value.owner == owner {
          var eventSet := HandleAt(sets, index);
          if sets[index].value.value.waiting {
            woken := woken + [eventSet];
          }
          var _ := DestroySet(owner, eventSet);
        }
      }
    }
  }

  // --- Predicates of the contracts ------------------------------------------------

  /** Exactly one handle was added to a table. */
  ghost predicate Added<T(!new)>(before: seq<Slot<T>>, after: seq<Slot<T>>, handle: Handle, value: T) {
    && !Live(before, handle) && Live(after, handle) && At(after, handle) == value
    && forall h :: h != handle ==> (Live(after, h) <==> Live(before, h))
                                   && (Live(before, h) ==> At(after, h) == At(before, h))
  }

  predicate Owned(sets: SetTable, owner: Handle, eventSet: Handle) {
    Live(sets, eventSet) && At(sets, eventSet).owner == owner && !At(sets, eventSet).invalidated
  }

  predicate Usable(sets: SetTable, owner: Handle, eventSet: Handle) {
    Owned(sets, owner, eventSet) && !At(sets, eventSet).waiting
  }

  /** An own event that an own usable set does not have yet. */
  predicate Addable(events: EventTable, sets: SetTable, owner: Handle, eventSet: Handle, event: Handle) {
    Live(events, event) && At(events, event).owner == owner && Usable(sets, owner, eventSet)
        && event !in At(sets, eventSet).members
  }

  function Limit(deadline: Option<nat>): nat {
    if deadline.None? then NO_DEADLINE else deadline.value
  }

  predicate Late(deadline: Option<nat>, now: nat) {
    Limit(deadline) != NO_DEADLINE && Limit(deadline) < now
  }

  function SeveredSlot(slot: Slot<EventSet>, event: Handle): Slot<EventSet> {
    if slot.value.Some? then slot.(value := Some(Severed(slot.value.value, event))) else slot
  }

  ghost predicate AllSevered(before: SetTable, after: SetTable, event: Handle) {
    |after| == |before| && forall i :: 0 <= i < |before| ==> after[i] == SeveredSlot(before[i], event)
  }

  /** An event that is not in any set takes nothing with it. */
  lemma NothingSevered(events: EventTable, sets: SetTable, sets': SetTable, event: Handle)
    requires Consistent(events, sets) && !Live(events, event) && AllSevered(sets, sets', event)
    ensures sets' == sets
  {
    forall i | 0 <= i < |sets|
      ensures sets'[i] == sets[i]
    {
      assert sets[i].value.Some? ==> MembersOk(events, sets[i].value.value);
    }
  }

  lemma ConsistentSevered(events: EventTable, events': EventTable, sets: SetTable, sets': SetTable, event: Handle)
    requires Consistent(events, sets) && AllSevered(sets, sets', event) && Numbered(sets)
    requires forall h :: h != event && Live(events, h) ==> Live(events', h) && At(events', h) == At(events, h)
    ensures Consistent(events', sets') && Numbered(sets')
  {
    forall i | 0 <= i < |sets'| && sets'[i].value.Some?
      ensures MembersOk(events', sets'[i].value.value)
    {
      SeveredOk(events, events', sets[i].value.value, event);
    }
  }

  /** The slot is as it was unless its value belonged to `owner`; then it is vacant under the next generation. */
  predicate KeptSlot(before: Slot<Event>, after: Slot<Event>, owner: Handle) {
    after == if before.value.Some? && before.value.value.owner == owner
        then Slot(NextGeneration(before.generation), None) else before
  }

  predicate KeptSet(before: Slot<EventSet>, after: Slot<EventSet>, owner: Handle) {
    if before.value.Some? && before.value.value.owner == owner
        then after == Slot(NextGeneration(before.generation), None) else after == before
  }

  /** Only sets of `owner` may differ, and they keep their owner. */
  predicate SameOrOwned(before: Slot<EventSet>, after: Slot<EventSet>, owner: Handle) {
    || after == before
    || (before.value.Some? && after.value.Some? && before.value.value.owner == owner == after.value.value.owner
       && before.generation == after.generation)
  }

  /** Everything but what `owner` has is as it was, and `owner` has nothing. */
  ghost predicate KeepsOnly(before: EventTable, after: EventTable, owner: Handle) {
    forall h :: (Live(after, h) <==> Live(before, h) && At(before, h).owner != owner)
                && (Live(after, h) ==> At(after, h) == At(before, h))
  }

  ghost predicate KeepsOnlySets(before: SetTable, after: SetTable, owner: Handle) {
    forall h :: (Live(after, h) <==> Live(before, h) && At(before, h).owner != owner)
                && (Live(after, h) ==> At(after, h) == At(before, h))
  }

  lemma KeptSlots(before: EventTable, after: EventTable, owner: Handle)
    requires |after| == |before| && forall i :: 0 <= i < |before| ==> KeptSlot(before[i], after[i], owner)
    ensures KeepsOnly(before, after, owner)
  {
  }

  /** An event is only in sets of its owner, so destroying it leaves the sets of others alone. */
  lemma OnlyOwnSevered(events: EventTable, sets: SetTable, sets': SetTable, event: Handle, owner: Handle)
    requires Consistent(events, sets) && Live(events, event) && At(events, event).owner == owner
             && AllSevered(sets, sets', event)
    ensures |sets'| == |sets| && forall i :: 0 <= i < |sets| ==> SameOrOwned(sets[i], sets'[i], owner)
  {
    forall i | 0 <= i < |sets|
      ensures SameOrOwned(sets[i], sets'[i], owner)
    {
      assert sets[i].value.Some? ==> MembersOk(events, sets[i].value.value);
    }
  }
}
